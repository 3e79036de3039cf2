# Order book level store and feed applier, in Dafny

This project models the core of a small FX market-data processor. There are two parts.

- **Level store.** One `OrderBook` per security, kept in `orderbook.py`. It has two sides:
  - bids, a price → quantity dictionary kept in descending price order;
  - offers, the same kept in ascending order.

  A side update takes a batch of up to five (price, quantity) pairs:
  - it is a no-op when every price is 0;
  - otherwise it inserts or overwrites a level when price > 0 and quantity > 0;
  - it deletes the level when price > 0 and quantity == 0;
  - it ignores every other pair;
  - it then re-sorts the side.

  The queries return the best bid, the best offer and the spread.
- **Feed applier.** This is `update_order_book` and the row loop of `process_file` in `run_data.py`.
  - It converts the twenty level columns of a snapshot row to numbers: `BI_price_1..5`, `BI_quantity_1..5`, `OF_price_1..5` and `OF_quantity_1..5`.
  - It applies the bid batch and then the offer batch.
  - It stamps the book with the row's time.
  - A registry maps each security to its book. The book is created on first sight, before the row is applied.

## Modules

| file | module | contents |
|---|---|---|
| `wrappers.dfy` | `Wrappers` | `Option`, `Result` (with `:-` support), and `Outcome` for a call that either passes or fails with an error. |
| `levels.dfy` | `Levels` | The side invariant (`Ordered`, `PositiveLevels`, `WellFormed`) and the dictionary view `AsMap` of a stored side. It also has the per-pair rule `Reconcile`, the batch `Applied`/`UpdatedSide`, the loop `ApplyBatch`, the re-sort `SortSide`, and lemmas about all of these. |
| `orderbook.dfy` | `OrderBooks` | Class `OrderBook` with fields `security`, `bids`, `offers` and `lastUpdateTime`. It has the two side updates and the three queries. |
| `feed.dfy` | `Feed` | Snapshot rows and the column conversion (`Convert`, `ReadGroup`, `Extract`). The row update is the method `UpdateOrderBook`, specified by `RowEffect`. The registry is the class `Registry`, specified on abstract states by `Register`, `ApplyRow`, `StepRow` and `RunRows`. |
| `scenarios.dfy` | `Scenarios` | A worked session on one book. It adds two levels per side, reads the best levels and the spread, then deletes the best bid. |

Modelling choices:
- Prices and quantities are mathematical `real`s, compared exactly. The source compares floats exactly, with no tolerance.
- A stored side is a `seq<Level>` that is strictly ordered in the side's direction. This strictness also makes prices unique.
  - The Python `OrderedDict` it models is that sequence.
  - The dictionary it stands for is `AsMap(side)`.
  - The dictionary the update loop mutates is a `map<real, real>`.
  - The re-sort `OrderedDict(sorted(...))` is the selection loop `SortSide`. It is proved to produce the ordered sequence of exactly that map.
- `zip(prices, quantities)` stops at the shorter list, and `Applied` does the same. The all-zero test looks at every price, as `all(...)` does.
- A row is its `security`, its `time` and a map from level columns to cells.
  - A column absent from the map is a missing column. Reading it raises `KeyError` in the source and is `MissingColumn` here.
  - A cell holding text is a value that `float()` rejects. That is `ValueError` in the source and `NotNumeric` here.
- Python evaluates the four list literals, and the elements within each, left to right, so the first failing column is the one reported. `ExtractErrorIsFirstBadColumn` proves the model reports that same column.
- Exceptions are values:
  - `UpdateOrderBook` returns `Fail(error)`;
  - `ProcessRows` stops at the first failing row, as the exception leaving the `for` loop does.
- The registry's `books` field is a `map<string, OrderBook>`. A ghost field `states` records what each book holds. `Registry.Valid` ties the two together and files each book under its own security.

## Model

| member | source | states |
|---|---|---|
| Levels.Reconcile | orderbook.py:42-48 | One zipped pair:<br>• price > 0 and qty > 0 sets the level to qty;<br>• price > 0 and qty == 0 removes the level, or changes nothing when the price is absent;<br>• any other pair (price ≤ 0, or a negative qty) leaves the dictionary as it was;<br>• no other price is affected;<br>• positive quantities stay positive. |
| Levels.UntouchedUnchanged | orderbook.py:42-48 | A price that no pair of the batch touches keeps its presence and its quantity. |
| Levels.LastTouchDecides | orderbook.py:42-48 | The last pair touching a price decides it: it is present with that pair's qty if the qty is > 0, and absent if the qty is 0. Covers an upsert repeated within a batch. |
| Levels.AppliedKeepsPositive | orderbook.py:42-48 | A batch applied to a dictionary of positive quantities leaves only positive quantities. |
| Levels.ApplyBatch | orderbook.py:42-48 | The update loop over `zip(prices, quantities)` computes the batch dictionary `Applied`. |
| Levels.SortSide | orderbook.py:50-51 | The re-sort yields a sequence that is strictly ordered in the side's direction, holds exactly the given dictionary, and has only positive levels when the dictionary's quantities are positive. |
| Levels.OrderedUnique | orderbook.py:51 | Two ordered sides holding the same dictionary are equal. Re-sorting an already-sorted side therefore gives it back unchanged. |
| Levels.FirstIsExtreme | orderbook.py:84-87 | The first level of a non-empty ordered side is in the dictionary with its quantity, and precedes every other price: it is the highest bid or the lowest offer. |
| OrderBooks.OrderBook.constructor | orderbook.py:15-27 | A new book has the given security, both sides empty, no last-update time, and satisfies the side invariant. |
| OrderBooks.OrderBook.UpdateBids | orderbook.py:29-51 | The ordering and positivity invariant is kept. The new bid dictionary is `UpdatedSide` of the old one. All-zero prices leave the bids identical. Offers and time are untouched. |
| OrderBooks.OrderBook.UpdateOffers | orderbook.py:53-75 | The same as `UpdateBids`, for the ascending offer side; bids and time are untouched. |
| OrderBooks.OrderBook.BestBid | orderbook.py:77-87 | None exactly when there are no bids. Otherwise it is a level of the book with its quantity, and no bid price is higher. |
| OrderBooks.OrderBook.BestOffer | orderbook.py:89-99 | None exactly when there are no offers. Otherwise it is a level of the book with its quantity, and no offer price is lower. |
| OrderBooks.OrderBook.Spread | orderbook.py:101-114 | Present exactly when both sides are non-empty, and equal to best offer price − best bid price. It is the smallest difference between any offer price and any bid price. |
| Feed.Convert | run_data.py:42-59 | Succeeds exactly when the column is present and numeric, with the cell's value. An absent column yields `MissingColumn` and a text cell yields `NotNumeric`. |
| Feed.ReadGroupSucceeds | run_data.py:42-59 | Reading one group's positions from `from` to 5 succeeds exactly when each of those columns converts. |
| Feed.ReadGroupValues | run_data.py:42-59 | A successful read of a group yields one value per position, in position order, each being that column's value. |
| Feed.ReadGroupError | run_data.py:42-59 | A failed read of a group reports the first position that does not convert. |
| Feed.ExtractPairsColumns | run_data.py:42-59 | Each of the four extracted batches has five elements. Index i of each comes from the column at position i + 1, so `BI_price_k` pairs with `BI_quantity_k` and `OF_price_k` with `OF_quantity_k`. |
| Feed.ExtractSucceedsIffAllConvert | run_data.py:42-59 | Extraction succeeds exactly when all twenty level columns convert. |
| Feed.ExtractErrorIsFirstBadColumn | run_data.py:42-59 | A failed extraction reports the first column, in reading order, that does not convert; every column read before it converts. |
| Feed.RowEffect | run_data.py:33-69 | • The row fails exactly when extraction fails.<br>• On failure, the error is extraction's and the book state is unchanged.<br>• On success, the last-update time is the row's time, even when both batches are all-zero.<br>• Positive quantities stay positive. |
| Feed.UpdateOrderBook | run_data.py:33-69 | The book's new state and the outcome are exactly `RowEffect` of the old state: bids, then offers, then the time, with nothing touched when a column fails. On failure all three fields are unchanged. |
| Feed.Register | run_data.py:89-91 | The registry gains the security and nothing else. A known security keeps its state; an unknown one gets an empty book. |
| Feed.ApplyRow | run_data.py:94 | Only the row's security changes, and its new state and the outcome are `RowEffect` of its old state. The set of keys is unchanged. |
| Feed.StepRow | run_data.py:86-94 | One iteration of the row loop:<br>• the keys grow by the row's security;<br>• other securities are unchanged;<br>• it fails exactly when extraction fails;<br>• a failing row leaves its security as before, or empty if it was new;<br>• a passing row stamps the time. |
| Feed.RunRowsKeys | run_data.py:86-94 | Running a file's rows only adds securities, and only those named by its rows. When no row fails, it adds exactly the securities of the rows. |
| Feed.RunRowsOthersUnchanged | run_data.py:86-94 | A security with no row in the file keeps its state through the whole run. |
| Feed.Registry.constructor | run_data.py:118 | The registry starts empty and valid. |
| Feed.Registry.BookFor | run_data.py:89-91 | • The registry's states become `Register` of the old ones.<br>• Existing books keep their identity.<br>• The returned book is the one filed under the security, and is fresh when the security was new. |
| Feed.Registry.UpdateRegistered | run_data.py:94 | The registry's states and the outcome are `ApplyRow` of the old states. The map of books is unchanged, and every other book object is left untouched. |
| Feed.Registry.ProcessRow | run_data.py:86-94 | The registry stays valid, and its states and the outcome are `StepRow` of the old states. Existing books keep their identity, and a new security gets a fresh book. |
| Feed.Registry.ProcessRows | run_data.py:86-94 | The registry stays valid and existing books keep their identity. The states and the outcome are `RunRows` of the old states: rows in order, stopping at the first failing row, with the effects of earlier rows kept. |
| Scenarios.BidsFromEmpty | orderbook.py:29-51 | Bids (1.10, 5) and (1.09, 3) on an empty side are stored exactly as `[(1.10, 5), (1.09, 3)]`. |
| Scenarios.OffersFromEmpty | orderbook.py:53-75 | Offers (1.11, 4) and (1.12, 6) on an empty side are stored exactly as `[(1.11, 4), (1.12, 6)]`. |
| Scenarios.DeleteBestBid | orderbook.py:45-48 | A batch with only (1.10, 0) removes 1.10 and leaves exactly `[(1.09, 3)]`. |

The methods `Scenarios.TwoLevelsEachSide` and `Scenarios.DeleteThenBestBid` carry the session's checks as assertions. They show:
- best bid (1.10, 5), best offer (1.11, 4), spread 0.01 and two levels per side;
- after the deletion, best bid (1.09, 3).

### Behaviour worth noting

- **Skipped pairs.** A pair is skipped when its price is ≤ 0, including negative prices, or when its price is positive and its quantity is negative. `Levels.Reconcile` states this.
- **No partial apply.** All twenty `float(...)` conversions run before `update_bids` is called, so a conversion failure leaves the book untouched. `Feed.UpdateOrderBook` states this.
- **No re-sort on an all-zero batch.** An update whose prices are all 0 returns before the re-sort. The side is already sorted then, so nothing observable differs. `OrderBooks.OrderBook.UpdateBids` states `bids == old(bids)` in that case.

## Left out

- `read_market_data` (CSV reading, `pd.to_datetime`, sorting by time) is not modelled. It is file I/O and library parsing. Rows reach `ProcessRows` already sorted by time, as `read_market_data` leaves them.
- `run` is not modelled: directory checks, globbing, the per-file `try`/`except` that prints and continues, and the summaries. Neither is the `__main__` block. All of it is I/O and console output. The registry that `run` shares across files is the `Registry` object, and calling `ProcessRows` once per file is left to the caller.
- The `print` calls in `process_file` and `OrderBook.__repr__` are not modelled. They are diagnostic output only.
- The `to_pydatetime` branch of `update_order_book` is not modelled. Time is an opaque type stored as given, so the conversion between pandas and Python timestamps is not represented.
- `str(row['security'])` is not modelled. The security arrives as a string.
- IEEE-754 floats are not modelled: NaN, infinities, signed zero, rounding, and a NaN produced from an empty CSV cell. Prices and quantities are exact reals.
- The "call the strategy" placeholder in the row loop has no behaviour and is not modelled.
- Concurrency is not modelled. The source is single-threaded.
