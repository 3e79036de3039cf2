/**
 * Worked sessions on one book: two levels per side and the best-of-book queries on them,
 * then the deletion of the best bid.
 */
module Scenarios {
  import opened Wrappers
  import opened Levels
  import opened OrderBooks

  const BidPrices := [1.10, 1.09, 0.0, 0.0, 0.0]
  const BidQuantities := [5.0, 3.0, 0.0, 0.0, 0.0]
  const OfferPrices := [1.11, 1.12, 0.0, 0.0, 0.0]
  const OfferQuantities := [4.0, 6.0, 0.0, 0.0, 0.0]
  const DeletePrices := [1.10, 0.0, 0.0, 0.0, 0.0]
  const Zeros := [0.0, 0.0, 0.0, 0.0, 0.0]

  /** Two bid levels on an empty side are stored best first. */
  lemma BidsFromEmpty(s: seq<Level>)
    requires Ordered(s, Bid) && AsMap(s) == UpdatedSide(map[], BidPrices, BidQuantities)
    ensures s == [Level(1.10, 5.0), Level(1.09, 3.0)]
  {
    assert BidPrices[0] != 0.0;
    OrderedUnique(s, [Level(1.10, 5.0), Level(1.09, 3.0)], Bid);
  }

  /** Two offer levels on an empty side are stored best first. */
  lemma OffersFromEmpty(s: seq<Level>)
    requires Ordered(s, Offer) && AsMap(s) == UpdatedSide(map[], OfferPrices, OfferQuantities)
    ensures s == [Level(1.11, 4.0), Level(1.12, 6.0)]
  {
    assert OfferPrices[0] != 0.0;
    OrderedUnique(s, [Level(1.11, 4.0), Level(1.12, 6.0)], Offer);
  }

  /** A zero quantity at 1.10 deletes that level and leaves the one at 1.09. */
  lemma DeleteBestBid(s: seq<Level>)
    requires Ordered(s, Bid)
    requires AsMap(s) == UpdatedSide(map[1.10 := 5.0, 1.09 := 3.0], DeletePrices, Zeros)
    ensures s == [Level(1.09, 3.0)]
  {
    assert DeletePrices[0] != 0.0;
    OrderedUnique(s, [Level(1.09, 3.0)], Bid);
  }

  /** Two levels per side: best bid, best offer, spread and level counts. */
  method TwoLevelsEachSide() {
    var book := new OrderBook("EURUSD");
    book.UpdateBids(BidPrices, BidQuantities);
    BidsFromEmpty(book.bids);
    book.UpdateOffers(OfferPrices, OfferQuantities);
    OffersFromEmpty(book.offers);

    assert book.BestBid() == Some(Level(1.10, 5.0));
    assert book.BestOffer() == Some(Level(1.11, 4.0));
    assert book.Spread() == Some(0.01);
    assert |book.bids| == 2 && |book.offers| == 2;
  }

  /** Deleting the best bid leaves the next level as the best one. */
  method DeleteThenBestBid() {
    var book := new OrderBook("EURUSD");
    book.UpdateBids(BidPrices, BidQuantities);
    BidsFromEmpty(book.bids);
    book.UpdateBids(DeletePrices, Zeros);
    DeleteBestBid(book.bids);

    assert book.BestBid() == Some(Level(1.09, 3.0));
    assert book.Spread() == None;
  }
}
