/**
 * The per-security order book: two ordered price -> quantity sides updated in batches,
 * the time of the last applied snapshot, and the best-of-book queries.
 */
module OrderBooks {
  import opened Wrappers
  import opened Levels

  /** The snapshot time, stored exactly as received. */
  type Time(==)

  /** What a book holds, seen as dictionaries: the state that updates and queries are about. */
  datatype BookState = BookState(bids: map<real, real>, offers: map<real, real>, lastUpdateTime: Option<Time>)

  class OrderBook {
    const security: string
    var bids: seq<Level>
    var offers: seq<Level>
    var lastUpdateTime: Option<Time>

    /** Bids strictly descending, offers strictly ascending, every stored quantity positive. */
    ghost predicate Valid()
      reads this
    {
      WellFormed(bids, Bid) && WellFormed(offers, Offer)
    }

    ghost function State(): BookState
      reads this
    {
      BookState(AsMap(bids), AsMap(offers), lastUpdateTime)
    }

    constructor (security: string)
      ensures this.security == security
      ensures bids == [] && offers == [] && lastUpdateTime == None
      ensures Valid()
    {
      this.security := security;
      bids := [];
      offers := [];
      lastUpdateTime := None;
    }

    /** Applies one batch to the bid side; the offer side and the time are untouched. */
    method UpdateBids(prices: seq<real>, quantities: seq<real>)
      requires Valid()
      modifies this
      ensures Valid()
      ensures AsMap(bids) == UpdatedSide(AsMap(old(bids)), prices, quantities)
      ensures AllZero(prices) ==> bids == old(bids)
      ensures offers == old(offers) && lastUpdateTime == old(lastUpdateTime)
    {
      if AllZero(prices) {
        return;
      }
      var m := ApplyBatch(AsMap(bids), prices, quantities);
      AsMapPositive(bids);
      AppliedKeepsPositive(AsMap(bids), prices, quantities);
      bids := SortSide(m, Bid);
    }

    /** Applies one batch to the offer side; the bid side and the time are untouched. */
    method UpdateOffers(prices: seq<real>, quantities: seq<real>)
      requires Valid()
      modifies this
      ensures Valid()
      ensures AsMap(offers) == UpdatedSide(AsMap(old(offers)), prices, quantities)
      ensures AllZero(prices) ==> offers == old(offers)
      ensures bids == old(bids) && lastUpdateTime == old(lastUpdateTime)
    {
      if AllZero(prices) {
        return;
      }
      var m := ApplyBatch(AsMap(offers), prices, quantities);
      AsMapPositive(offers);
      AppliedKeepsPositive(AsMap(offers), prices, quantities);
      offers := SortSide(m, Offer);
    }

    /** The highest bid with its quantity, or None when there are no bids. */
    function BestBid(): (r: Option<Level>)
      reads this
      requires Valid()
      ensures r.None? <==> AsMap(bids) == map[]
      ensures r.Some? ==> r.value.price in AsMap(bids) && AsMap(bids)[r.value.price] == r.value.qty
      ensures r.Some? ==> forall p :: p in AsMap(bids) ==> p <= r.value.price
    {
      if bids == [] then None
      else
        FirstIsExtreme(bids, Bid);
        Some(bids[0])
    }

    /** The lowest offer with its quantity, or None when there are no offers. */
    function BestOffer(): (r: Option<Level>)
      reads this
      requires Valid()
      ensures r.None? <==> AsMap(offers) == map[]
      ensures r.Some? ==> r.value.price in AsMap(offers) && AsMap(offers)[r.value.price] == r.value.qty
      ensures r.Some? ==> forall p :: p in AsMap(offers) ==> r.value.price <= p
    {
      if offers == [] then None
      else
        FirstIsExtreme(offers, Offer);
        Some(offers[0])
    }

    /** Best offer price minus best bid price, or None unless both sides have a level. */
    function Spread(): (r: Option<real>)
      reads this
      requires Valid()
      ensures r.Some? <==> AsMap(bids) != map[] && AsMap(offers) != map[]
      ensures r.Some? ==> r.value == BestOffer().value.price - BestBid().value.price
      ensures r.Some? ==> forall b, o :: b in AsMap(bids) && o in AsMap(offers) ==> r.value <= o - b
    {
      var bestBid := BestBid();
      var bestOffer := BestOffer();
      if bestBid.None? || bestOffer.None? then None
      else Some(bestOffer.value.price - bestBid.value.price)
    }
  }
}
