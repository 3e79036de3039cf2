/**
 * The feed applier: turns one market-data row into the bid and offer batches of a book,
 * and keeps the security -> book registry that a file of rows updates.
 */
module Feed {
  import opened Wrappers
  import opened Levels
  import opened OrderBooks

  /** A cell of a row as the CSV reader delivers it: a number, or text that does not parse as one. */
  datatype Cell = Numeric(value: real) | NonNumeric(text: string)

  /** The four groups of level columns: `BI_price`, `BI_quantity`, `OF_price`, `OF_quantity`. */
  datatype Group = BidPrice | BidQuantity | OfferPrice | OfferQuantity

  /** A level column: `Column(BidPrice, 1)` is the column named `BI_price_1`. */
  datatype Column = Column(group: Group, position: nat)

  /** One snapshot row: the security, its time, and the level columns it carries. */
  datatype Row = Row(security: string, time: Time, cells: map<Column, Cell>)

  /** Why a level column could not be read: it is absent from the row, or not a number. */
  datatype ConversionError = MissingColumn(column: Column) | NotNumeric(column: Column)

  /** The four positional batches pulled out of a row. */
  datatype Snapshot = Snapshot(bidPrices: seq<real>, bidQuantities: seq<real>, offerPrices: seq<real>, offerQuantities: seq<real>)

  /** The order in which the groups are read. */
  function GroupIndex(g: Group): nat {
    match g
    case BidPrice => 0
    case BidQuantity => 1
    case OfferPrice => 2
    case OfferQuantity => 3
  }

  /** A level column of the snapshot: positions 1 to 5 of each group. */
  predicate IsLevelColumn(c: Column) {
    1 <= c.position <= 5
  }

  /** Column `a` is read before column `b`: an earlier group, or the same group at an earlier position. */
  predicate ReadBefore(a: Column, b: Column) {
    GroupIndex(a.group) < GroupIndex(b.group) || (a.group == b.group && a.position < b.position)
  }

  /** Reading one column as a number. */
  function Convert(row: Row, column: Column): (r: Result<real, ConversionError>)
    ensures r.Ok? <==> column in row.cells && row.cells[column].Numeric?
    ensures r.Ok? ==> r.value == row.cells[column].value
    ensures column !in row.cells ==> r == Err(MissingColumn(column))
    ensures column in row.cells && row.cells[column].NonNumeric? ==> r == Err(NotNumeric(column))
  {
    if column !in row.cells then Err(MissingColumn(column))
    else match row.cells[column]
      case Numeric(v) => Ok(v)
      case NonNumeric(_) => Err(NotNumeric(column))
  }

  /** Reads the columns of group `g` from position `from` up to position 5, in order; the first one that does not convert stops the reading. */
  function ReadGroup(row: Row, g: Group, from: nat): Result<seq<real>, ConversionError>
    decreases 6 - from
  {
    if from > 5 then Ok([])
    else
      var v :- Convert(row, Column(g, from));
      var vs :- ReadGroup(row, g, from + 1);
      Ok([v] + vs)
  }

  /** Reading positions `from`..5 of a group succeeds exactly when each of them converts. */
  lemma {:induction false} ReadGroupSucceeds(row: Row, g: Group, from: nat)
    ensures ReadGroup(row, g, from).Ok? <==> forall i :: from <= i <= 5 ==> Convert(row, Column(g, i)).Ok?
    decreases 6 - from
  {
    if from <= 5 && Convert(row, Column(g, from)).Ok? {
      ReadGroupSucceeds(row, g, from + 1);
    }
  }

  /** A successful read yields the values of positions `from`..5, in position order. */
  lemma {:induction false} ReadGroupValues(row: Row, g: Group, from: nat)
    requires from <= 6 && ReadGroup(row, g, from).Ok?
    ensures |ReadGroup(row, g, from).value| == 6 - from
    ensures forall i :: from <= i <= 5 ==> Convert(row, Column(g, i)) == Ok(ReadGroup(row, g, from).value[i - from])
    decreases 6 - from
  {
    if from <= 5 {
      ReadGroupValues(row, g, from + 1);
      assert ReadGroup(row, g, from).value == [Convert(row, Column(g, from)).value] + ReadGroup(row, g, from + 1).value;
    }
  }

  /** A failed read reports the first position, from `from` on, that does not convert. */
  lemma {:induction false} ReadGroupError(row: Row, g: Group, from: nat)
    requires ReadGroup(row, g, from).Err?
    ensures exists i :: (from <= i <= 5 && Convert(row, Column(g, i)) == Err(ReadGroup(row, g, from).error)
      && forall j :: from <= j < i ==> Convert(row, Column(g, j)).Ok?)
    decreases 6 - from
  {
    if Convert(row, Column(g, from)).Ok? {
      ReadGroupError(row, g, from + 1);
      var i :| from + 1 <= i <= 5 && Convert(row, Column(g, i)) == Err(ReadGroup(row, g, from + 1).error)
        && forall j :: from + 1 <= j < i ==> Convert(row, Column(g, j)).Ok?;
      assert Convert(row, Column(g, i)) == Err(ReadGroup(row, g, from).error);
    } else {
      assert Convert(row, Column(g, from)) == Err(ReadGroup(row, g, from).error);
    }
  }

  /** All twenty conversions happen before any side is touched: bid prices, bid quantities, offer prices, offer quantities. */
  function Extract(row: Row): Result<Snapshot, ConversionError> {
    var bidPrices :- ReadGroup(row, BidPrice, 1);
    var bidQuantities :- ReadGroup(row, BidQuantity, 1);
    var offerPrices :- ReadGroup(row, OfferPrice, 1);
    var offerQuantities :- ReadGroup(row, OfferQuantity, 1);
    Ok(Snapshot(bidPrices, bidQuantities, offerPrices, offerQuantities))
  }

  /** A successful extraction holds five values per group, index i of each batch taken from the column at position i + 1. */
  lemma ExtractPairsColumns(row: Row)
    ensures Extract(row).Ok? ==>
      var snap := Extract(row).value;
      && |snap.bidPrices| == |snap.bidQuantities| == |snap.offerPrices| == |snap.offerQuantities| == 5
      && forall i :: 0 <= i < 5 ==>
        && Convert(row, Column(BidPrice, i + 1)) == Ok(snap.bidPrices[i])
        && Convert(row, Column(BidQuantity, i + 1)) == Ok(snap.bidQuantities[i])
        && Convert(row, Column(OfferPrice, i + 1)) == Ok(snap.offerPrices[i])
        && Convert(row, Column(OfferQuantity, i + 1)) == Ok(snap.offerQuantities[i])
  {
    if Extract(row).Ok? {
      ReadGroupValues(row, BidPrice, 1);
      ReadGroupValues(row, BidQuantity, 1);
      ReadGroupValues(row, OfferPrice, 1);
      ReadGroupValues(row, OfferQuantity, 1);
    }
  }

  /** Extraction succeeds exactly when every level column converts. */
  lemma ExtractSucceedsIffAllConvert(row: Row)
    ensures Extract(row).Ok? <==> forall c :: IsLevelColumn(c) ==> Convert(row, c).Ok?
  {
    ReadGroupSucceeds(row, BidPrice, 1);
    ReadGroupSucceeds(row, BidQuantity, 1);
    ReadGroupSucceeds(row, OfferPrice, 1);
    ReadGroupSucceeds(row, OfferQuantity, 1);
    assert Extract(row).Ok? <==> (ReadGroup(row, BidPrice, 1).Ok? && ReadGroup(row, BidQuantity, 1).Ok?
      && ReadGroup(row, OfferPrice, 1).Ok? && ReadGroup(row, OfferQuantity, 1).Ok?);
    if forall c :: IsLevelColumn(c) ==> Convert(row, c).Ok? {
      forall g: Group, i | 1 <= i <= 5
        ensures Convert(row, Column(g, i)).Ok?
      {
        assert IsLevelColumn(Column(g, i));
      }
    } else {
      var c :| IsLevelColumn(c) && !Convert(row, c).Ok?;
      assert c == Column(c.group, c.position);
      assert ReadGroup(row, c.group, 1).Err?;
      assert c.group == BidPrice || c.group == BidQuantity || c.group == OfferPrice || c.group == OfferQuantity;
    }
  }

  /** A failed extraction reports the first column, in reading order, that does not convert. */
  lemma ExtractErrorIsFirstBadColumn(row: Row)
    requires Extract(row).Err?
    ensures exists c :: (IsLevelColumn(c) && Convert(row, c) == Err(Extract(row).error)
      && forall c' :: IsLevelColumn(c') && ReadBefore(c', c) ==> Convert(row, c').Ok?)
  {
    ReadGroupSucceeds(row, BidPrice, 1);
    ReadGroupSucceeds(row, BidQuantity, 1);
    ReadGroupSucceeds(row, OfferPrice, 1);
    var g := if ReadGroup(row, BidPrice, 1).Err? then BidPrice
      else if ReadGroup(row, BidQuantity, 1).Err? then BidQuantity
      else if ReadGroup(row, OfferPrice, 1).Err? then OfferPrice
      else OfferQuantity;
    assert ReadGroup(row, g, 1).Err? && ReadGroup(row, g, 1).error == Extract(row).error;
    ReadGroupError(row, g, 1);
    var i :| 1 <= i <= 5 && Convert(row, Column(g, i)) == Err(ReadGroup(row, g, 1).error)
      && forall j :: 1 <= j < i ==> Convert(row, Column(g, j)).Ok?;
    forall c' | IsLevelColumn(c') && ReadBefore(c', Column(g, i))
      ensures Convert(row, c').Ok?
    {
      if c'.group != g {
        assert ReadGroup(row, c'.group, 1).Ok?;
      }
      assert c' == Column(c'.group, c'.position);
    }
    assert IsLevelColumn(Column(g, i));
  }

  /**
   * What one call of the row update does to a book: bids, then offers, then the time, which is
   * set even when both batches are all-zero; when a column does not convert, the book is left
   * as it was and the error is reported.
   */
  function RowEffect(st: BookState, row: Row): (r: (BookState, Outcome<ConversionError>))
    ensures r.1.Fail? <==> Extract(row).Err?
    ensures r.1.Fail? ==> r.1.error == Extract(row).error && r.0 == st
    ensures r.1.Pass? ==> r.0.lastUpdateTime == Some(row.time)
    ensures PositiveQuantities(st.bids) && PositiveQuantities(st.offers) ==>
      PositiveQuantities(r.0.bids) && PositiveQuantities(r.0.offers)
  {
    match Extract(row)
    case Err(e) => (st, Fail(e))
    case Ok(snap) =>
      AppliedKeepsPositive(st.bids, snap.bidPrices, snap.bidQuantities);
      AppliedKeepsPositive(st.offers, snap.offerPrices, snap.offerQuantities);
      (BookState(
         UpdatedSide(st.bids, snap.bidPrices, snap.bidQuantities),
         UpdatedSide(st.offers, snap.offerPrices, snap.offerQuantities),
         Some(row.time)),
       Pass)
  }

  /** Applies one row to a book: nothing changes unless every column converts. */
  method UpdateOrderBook(book: OrderBook, row: Row) returns (r: Outcome<ConversionError>)
    requires book.Valid()
    modifies book
    ensures book.Valid()
    ensures (book.State(), r) == RowEffect(old(book.State()), row)
    ensures r.Fail? ==> book.bids == old(book.bids) && book.offers == old(book.offers) && book.lastUpdateTime == old(book.lastUpdateTime)
  {
    var snap := Extract(row);
    if snap.Err? {
      return Fail(snap.error);
    }
    book.UpdateBids(snap.value.bidPrices, snap.value.bidQuantities);
    book.UpdateOffers(snap.value.offerPrices, snap.value.offerQuantities);
    book.lastUpdateTime := Some(row.time);
    r := Pass;
  }

  /** A freshly created book: no bids, no offers, no time. */
  const EmptyState: BookState := BookState(map[], map[], None)

  /** The registry after a row for `security` is seen: a fresh empty book is filed on first sight. */
  function Register(states: map<string, BookState>, security: string): (r: map<string, BookState>)
    ensures r.Keys == states.Keys + {security}
    ensures security in states ==> r == states
    ensures security !in states ==> r == states[security := EmptyState]
  {
    if security in states then states else states[security := EmptyState]
  }

  /** A row applied to the book already filed under its security. */
  function ApplyRow(states: map<string, BookState>, row: Row): (r: (map<string, BookState>, Outcome<ConversionError>))
    requires row.security in states
    ensures r.0.Keys == states.Keys
    ensures forall s :: s in states && s != row.security ==> r.0[s] == states[s]
    ensures (r.0[row.security], r.1) == RowEffect(states[row.security], row)
  {
    var (st, r) := RowEffect(states[row.security], row);
    (states[row.security := st], r)
  }

  /** One row of the file loop: register a book on first sight (before updating it), then update it. */
  function StepRow(states: map<string, BookState>, row: Row): (r: (map<string, BookState>, Outcome<ConversionError>))
    ensures r.0.Keys == states.Keys + {row.security}
    ensures forall s :: s in states && s != row.security ==> r.0[s] == states[s]
    ensures r.1.Fail? <==> Extract(row).Err?
    ensures r.1.Fail? && row.security in states ==> r.0[row.security] == states[row.security]
    ensures r.1.Fail? && row.security !in states ==> r.0[row.security] == EmptyState
    ensures r.1.Pass? ==> r.0[row.security].lastUpdateTime == Some(row.time)
  {
    ApplyRow(Register(states, row.security), row)
  }

  /** The rows of a file in order, stopping at the first row that fails. */
  function RunRows(states: map<string, BookState>, rows: seq<Row>): (map<string, BookState>, Outcome<ConversionError>)
    decreases |rows|
  {
    if rows == [] then (states, Pass)
    else
      var (states', r) := StepRow(states, rows[0]);
      if r.Fail? then (states', r) else RunRows(states', rows[1..])
  }

  /** The securities the rows name. */
  function Securities(rows: seq<Row>): set<string>
    decreases |rows|
  {
    if rows == [] then {} else {rows[0].security} + Securities(rows[1..])
  }

  /** A run only adds securities, and adds at most those of its rows; all of them when no row fails. */
  lemma {:induction false} RunRowsKeys(states: map<string, BookState>, rows: seq<Row>)
    ensures states.Keys <= RunRows(states, rows).0.Keys <= states.Keys + Securities(rows)
    ensures RunRows(states, rows).1.Pass? ==> RunRows(states, rows).0.Keys == states.Keys + Securities(rows)
    decreases |rows|
  {
    if rows != [] {
      var (states', r) := StepRow(states, rows[0]);
      if r.Pass? {
        RunRowsKeys(states', rows[1..]);
      }
    }
  }

  /** A run leaves every security without a row in it exactly as it was. */
  lemma {:induction false} RunRowsOthersUnchanged(states: map<string, BookState>, rows: seq<Row>, s: string)
    requires s in states
    requires forall i :: 0 <= i < |rows| ==> rows[i].security != s
    ensures s in RunRows(states, rows).0 && RunRows(states, rows).0[s] == states[s]
    decreases |rows|
  {
    if rows != [] {
      var (states', r) := StepRow(states, rows[0]);
      if r.Pass? {
        RunRowsOthersUnchanged(states', rows[1..], s);
      }
    }
  }

  /** The security -> book dictionary that a run of files shares. */
  class Registry {
    var books: map<string, OrderBook>
    /** What each registered book holds. */
    ghost var states: map<string, BookState>

    /** Each book is valid, filed under its own security (so distinct securities have distinct books), and holds `states`. */
    ghost predicate Valid()
      reads this, books.Values
    {
      && books.Keys == states.Keys
      && forall s :: s in books ==> books[s].security == s && books[s].Valid() && books[s].State() == states[s]
    }

    constructor ()
      ensures books == map[] && Valid()
    {
      books := map[];
      states := map[];
    }

    /** The book of a security: a fresh empty one registered on first sight, otherwise the one already registered. */
    method BookFor(security: string) returns (book: OrderBook)
      requires Valid()
      modifies this
      ensures Valid()
      ensures states == Register(old(states), security)
      ensures forall s :: s in old(books) ==> books[s] == old(books[s])
      ensures book == books[security]
      ensures security !in old(books) ==> fresh(book)
    {
      if security !in books {
        book := new OrderBook(security);
        books := books[security := book];
        states := states[security := EmptyState];
      } else {
        book := books[security];
      }
    }

    /** Updates the book registered for the row's security. */
    method UpdateRegistered(book: OrderBook, row: Row) returns (r: Outcome<ConversionError>)
      requires Valid() && row.security in books && book == books[row.security]
      modifies this, book
      ensures Valid() && books == old(books)
      ensures (states, r) == ApplyRow(old(states), row)
      ensures forall s :: s in books && s != row.security ==> unchanged(books[s])
    {
      r := UpdateOrderBook(book, row);
      states := states[row.security := book.State()];
      forall s | s in books
        ensures books[s].security == s && books[s].Valid() && books[s].State() == states[s]
        ensures s != row.security ==> unchanged(books[s])
      {
        if s != row.security {
          assert books[s] != book;
        }
      }
    }

    /** The body of the row loop: find or create the book, then update it. */
    method ProcessRow(row: Row) returns (r: Outcome<ConversionError>)
      requires Valid()
      modifies this, books.Values
      ensures Valid()
      ensures (states, r) == StepRow(old(states), row)
      ensures forall s :: s in old(books) ==> books[s] == old(books[s])
      ensures row.security !in old(books) ==> fresh(books[row.security])
    {
      var book := BookFor(row.security);
      r := UpdateRegistered(book, row);
    }

    /** The row loop of one file: rows in order, stopping at the first row that fails. */
    method ProcessRows(rows: seq<Row>) returns (r: Outcome<ConversionError>)
      requires Valid()
      modifies this, books.Values
      ensures Valid()
      ensures forall s :: s in old(books) ==> s in books && books[s] == old(books[s])
      ensures (states, r) == RunRows(old(states), rows)
    {
      var i := 0;
      while i < |rows|
        invariant 0 <= i <= |rows|
        invariant Valid()
        invariant forall s :: s in old(books) ==> s in books && books[s] == old(books[s])
        invariant forall s :: s in books ==> s in old(books) || fresh(books[s])
        invariant RunRows(states, rows[i..]) == RunRows(old(states), rows)
      {
        assert rows[i..][1..] == rows[i + 1..];
        r := ProcessRow(rows[i]);
        if r.Fail? {
          return;
        }
        i := i + 1;
      }
      r := Pass;
    }
  }
}
