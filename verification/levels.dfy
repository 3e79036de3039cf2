/**
 * One side of a limit order book: the price -> quantity dictionary that a batch of
 * (price, quantity) pairs updates in place, the rule each pair follows, and the re-sort
 * that turns the dictionary back into the ordered mapping the book stores.
 *
 * Prices and quantities are `real`: the source only compares them and uses prices as exact
 * dictionary keys.
 */
module Levels {

  datatype Side = Bid | Offer

  /** One resting price level. */
  datatype Level = Level(price: real, qty: real)

  /** Price `a` is iterated before price `b`: higher first on the bid side, lower first on the offer side. */
  predicate Precedes(a: real, b: real, side: Side) {
    if side == Bid then a > b else a < b
  }

  /** Prices strictly in the side's direction; strictness also makes every price unique. */
  predicate Ordered(s: seq<Level>, side: Side) {
    forall i, j :: 0 <= i < j < |s| ==> Precedes(s[i].price, s[j].price, side)
  }

  predicate PositiveLevels(s: seq<Level>) {
    forall i :: 0 <= i < |s| ==> s[i].qty > 0.0
  }

  predicate PositiveQuantities(m: map<real, real>) {
    forall p :: p in m ==> m[p] > 0.0
  }

  /** The invariant of a stored side: ordered, unique prices, every quantity positive. */
  predicate WellFormed(s: seq<Level>, side: Side) {
    Ordered(s, side) && PositiveLevels(s)
  }

  /** The price -> quantity dictionary that an ordered side holds. */
  function AsMap(s: seq<Level>): map<real, real> {
    if s == [] then map[] else AsMap(s[1..])[s[0].price := s[0].qty]
  }

  function Prices(s: seq<Level>): set<real> {
    set l | l in s :: l.price
  }

  lemma {:induction false} AsMapKeys(s: seq<Level>)
    ensures AsMap(s).Keys == Prices(s)
  {
    if s != [] {
      AsMapKeys(s[1..]);
      assert s == [s[0]] + s[1..];
      assert Prices(s) == {s[0].price} + Prices(s[1..]);
    }
  }

  /** In an ordered side, the dictionary maps each level's price to that level's quantity. */
  lemma {:induction false} AsMapAt(s: seq<Level>, side: Side, i: nat)
    requires Ordered(s, side) && i < |s|
    ensures s[i].price in AsMap(s) && AsMap(s)[s[i].price] == s[i].qty
  {
    if i > 0 {
      AsMapAt(s[1..], side, i - 1);
      assert s[1..][i - 1] == s[i];
      assert Precedes(s[0].price, s[i].price, side);
    }
  }

  lemma {:induction false} AsMapPositive(s: seq<Level>)
    requires PositiveLevels(s)
    ensures PositiveQuantities(AsMap(s))
  {
    if s != [] {
      AsMapPositive(s[1..]);
    }
  }

  /** The first level of a non-empty ordered side holds its extreme price: the highest bid, the lowest offer. */
  lemma {:induction false} FirstIsExtreme(s: seq<Level>, side: Side)
    requires Ordered(s, side) && s != []
    ensures s[0].price in AsMap(s) && AsMap(s)[s[0].price] == s[0].qty
    ensures forall p :: p in AsMap(s) && p != s[0].price ==> Precedes(s[0].price, p, side)
  {
    AsMapAt(s, side, 0);
    AsMapKeys(s);
    forall p | p in AsMap(s) && p != s[0].price
      ensures Precedes(s[0].price, p, side)
    {
      var l :| l in s && l.price == p;
      var j :| 0 <= j < |s| && s[j] == l;
      assert j != 0;
    }
  }

  /** An ordered side is determined by the dictionary it holds. */
  lemma {:induction false} OrderedUnique(s: seq<Level>, t: seq<Level>, side: Side)
    requires Ordered(s, side) && Ordered(t, side)
    requires AsMap(s) == AsMap(t)
    ensures s == t
  {
    if s == [] || t == [] {
      if s != [] {
        AsMapAt(s, side, 0);
      } else if t != [] {
        AsMapAt(t, side, 0);
      }
    } else {
      FirstIsExtreme(s, side);
      FirstIsExtreme(t, side);
      assert s[0].price == t[0].price;
      assert s[0] == t[0];
      RestWithoutFirst(s, side);
      RestWithoutFirst(t, side);
      OrderedUnique(s[1..], t[1..], side);
      assert s == [s[0]] + s[1..] && t == [t[0]] + t[1..];
    }
  }

  lemma {:induction false} RestWithoutFirst(s: seq<Level>, side: Side)
    requires Ordered(s, side) && s != []
    ensures AsMap(s[1..]) == AsMap(s) - {s[0].price}
  {
    AsMapKeys(s[1..]);
    forall l | l in s[1..]
      ensures l.price != s[0].price
    {
      var j :| 0 <= j < |s[1..]| && s[1..][j] == l;
      assert s[j + 1] == l;
    }
    assert s[0].price !in Prices(s[1..]);
  }

  /** The dictionary effect of one (price, quantity) pair of a batch. */
  function Reconcile(m: map<real, real>, price: real, qty: real): (r: map<real, real>)
    ensures forall p :: p != price ==> (p in r <==> p in m) && (p in r ==> r[p] == m[p])
    ensures price > 0.0 && qty > 0.0 ==> price in r && r[price] == qty
    ensures price > 0.0 && qty == 0.0 ==> price !in r
    ensures price > 0.0 && qty == 0.0 && price !in m ==> r == m
    ensures !(price > 0.0 && qty >= 0.0) ==> r == m
    ensures PositiveQuantities(m) ==> PositiveQuantities(r)
  {
    if price > 0.0 && qty > 0.0 then m[price := qty]
    else if price > 0.0 && qty == 0.0 then (if price in m then m - {price} else m)
    else m
  }

  /** How many pairs `zip(prices, quantities)` yields. */
  function Zipped(prices: seq<real>, quantities: seq<real>): nat {
    if |prices| <= |quantities| then |prices| else |quantities|
  }

  /** The dictionary after every zipped pair has been reconciled, first pair first. */
  function Applied(m: map<real, real>, prices: seq<real>, quantities: seq<real>): map<real, real>
    decreases |prices|
  {
    if prices == [] || quantities == [] then m
    else Applied(Reconcile(m, prices[0], quantities[0]), prices[1..], quantities[1..])
  }

  /** A batch whose every price is 0 reports no change for the side (`all()` of nothing is true). */
  predicate AllZero(prices: seq<real>) {
    forall i :: 0 <= i < |prices| ==> prices[i] == 0.0
  }

  /** The dictionary a side holds after one batch. */
  function UpdatedSide(m: map<real, real>, prices: seq<real>, quantities: seq<real>): map<real, real> {
    if AllZero(prices) then m else Applied(m, prices, quantities)
  }

  /** The pair (price, qty) creates, updates or deletes the level at price p. */
  predicate Touches(price: real, qty: real, p: real) {
    price == p && price > 0.0 && qty >= 0.0
  }

  /** A price that no pair of the batch touches keeps its level, or its absence, unchanged. */
  lemma {:induction false} UntouchedUnchanged(m: map<real, real>, prices: seq<real>, quantities: seq<real>, p: real)
    requires forall j :: 0 <= j < Zipped(prices, quantities) ==> !Touches(prices[j], quantities[j], p)
    ensures p in Applied(m, prices, quantities) <==> p in m
    ensures p in m ==> Applied(m, prices, quantities)[p] == m[p]
    decreases |prices|
  {
    if prices != [] && quantities != [] {
      assert !Touches(prices[0], quantities[0], p);
      var m' := Reconcile(m, prices[0], quantities[0]);
      assert (p in m' <==> p in m) && (p in m ==> m'[p] == m[p]);
      forall j | 0 <= j < Zipped(prices[1..], quantities[1..])
        ensures !Touches(prices[1..][j], quantities[1..][j], p)
      {
        assert !Touches(prices[j + 1], quantities[j + 1], p);
      }
      UntouchedUnchanged(m', prices[1..], quantities[1..], p);
    }
  }

  /** The last pair that touches a price decides it: a positive quantity is stored, a zero quantity deletes the level. */
  lemma {:induction false} LastTouchDecides(m: map<real, real>, prices: seq<real>, quantities: seq<real>, i: nat)
    requires i < Zipped(prices, quantities)
    requires Touches(prices[i], quantities[i], prices[i])
    requires forall j :: i < j < Zipped(prices, quantities) ==> !Touches(prices[j], quantities[j], prices[i])
    ensures quantities[i] > 0.0 ==> prices[i] in Applied(m, prices, quantities) && Applied(m, prices, quantities)[prices[i]] == quantities[i]
    ensures quantities[i] == 0.0 ==> prices[i] !in Applied(m, prices, quantities)
    decreases i
  {
    var m' := Reconcile(m, prices[0], quantities[0]);
    assert Applied(m, prices, quantities) == Applied(m', prices[1..], quantities[1..]);
    if i == 0 {
      forall j | 0 <= j < Zipped(prices[1..], quantities[1..])
        ensures !Touches(prices[1..][j], quantities[1..][j], prices[0])
      {
        assert !Touches(prices[j + 1], quantities[j + 1], prices[0]);
      }
      UntouchedUnchanged(m', prices[1..], quantities[1..], prices[0]);
    } else {
      forall j | i - 1 < j < Zipped(prices[1..], quantities[1..])
        ensures !Touches(prices[1..][j], quantities[1..][j], prices[1..][i - 1])
      {
        assert !Touches(prices[j + 1], quantities[j + 1], prices[i]);
      }
      LastTouchDecides(m', prices[1..], quantities[1..], i - 1);
    }
  }

  /** No pair stores a non-positive quantity, so positive quantities stay positive. */
  lemma {:induction false} AppliedKeepsPositive(m: map<real, real>, prices: seq<real>, quantities: seq<real>)
    ensures PositiveQuantities(m) ==> PositiveQuantities(Applied(m, prices, quantities))
    decreases |prices|
  {
    if prices != [] && quantities != [] {
      AppliedKeepsPositive(Reconcile(m, prices[0], quantities[0]), prices[1..], quantities[1..]);
    }
  }

  /** The per-index loop of the update: reconciles the zipped pairs into the dictionary in place. */
  method ApplyBatch(m0: map<real, real>, prices: seq<real>, quantities: seq<real>) returns (m: map<real, real>)
    ensures m == Applied(m0, prices, quantities)
  {
    m := m0;
    var n := Zipped(prices, quantities);
    var i := 0;
    while i < n
      invariant 0 <= i <= n
      invariant Applied(m, prices[i..], quantities[i..]) == Applied(m0, prices, quantities)
    {
      var price, qty := prices[i], quantities[i];
      assert prices[i..][1..] == prices[i + 1..] && quantities[i..][1..] == quantities[i + 1..];
      if price > 0.0 && qty > 0.0 {
        m := m[price := qty];
      } else if price > 0.0 && qty == 0.0 {
        if price in m {
          m := m - {price};
        }
      }
      i := i + 1;
    }
  }

  lemma NonEmptyHasMember(keys: set<real>)
    requires keys != {}
    ensures exists x :: x in keys
  {
    if forall x :: x !in keys {
      assert false;
    }
  }

  /** Some price of a non-empty set comes after every other one on the side. */
  lemma {:induction false} LastExists(keys: set<real>, side: Side)
    requires keys != {}
    ensures exists k :: k in keys && forall p :: p in keys && p != k ==> Precedes(p, k, side)
    decreases keys
  {
    NonEmptyHasMember(keys);
    var x :| x in keys;
    if keys != {x} {
      LastExists(keys - {x}, side);
      var y :| y in keys - {x} && forall p :: p in keys - {x} && p != y ==> Precedes(p, y, side);
      if Precedes(x, y, side) {
        assert forall p :: p in keys && p != y ==> Precedes(p, y, side);
      } else {
        forall p | p in keys && p != x
          ensures Precedes(p, x, side)
        {
          if p != y {
            assert p in keys - {x};
          }
        }
      }
    } else {
      assert forall p :: p in keys && p != x ==> Precedes(p, x, side);
    }
  }

  /** One step of the re-sort: prepending the last remaining price keeps the side ordered and the union unchanged. */
  lemma PrependLast(s: seq<Level>, rest: map<real, real>, k: real, side: Side)
    requires Ordered(s, side)
    requires AsMap(s).Keys !! rest.Keys
    requires forall p, i :: p in rest && 0 <= i < |s| ==> Precedes(p, s[i].price, side)
    requires k in rest && forall p :: p in rest && p != k ==> Precedes(p, k, side)
    ensures Ordered([Level(k, rest[k])] + s, side)
    ensures AsMap([Level(k, rest[k])] + s).Keys !! (rest - {k}).Keys
    ensures AsMap([Level(k, rest[k])] + s) + (rest - {k}) == AsMap(s) + rest
    ensures forall p, i :: p in rest - {k} && 0 <= i < |s| + 1 ==> Precedes(p, ([Level(k, rest[k])] + s)[i].price, side)
  {
    var s' := [Level(k, rest[k])] + s;
    assert s'[1..] == s;
    assert AsMap(s') == AsMap(s)[k := rest[k]];
    forall i, j | 0 <= i < j < |s'|
      ensures Precedes(s'[i].price, s'[j].price, side)
    {
      if i > 0 {
        assert s'[i] == s[i - 1] && s'[j] == s[j - 1];
      } else {
        assert s'[j] == s[j - 1];
      }
    }
    forall p, i | p in rest - {k} && 0 <= i < |s'|
      ensures Precedes(p, s'[i].price, side)
    {
      if i > 0 {
        assert s'[i] == s[i - 1];
      }
    }
  }

  /** The re-sort after a batch: builds the ordered side holding exactly the dictionary `m`. */
  method SortSide(m: map<real, real>, side: Side) returns (s: seq<Level>)
    ensures Ordered(s, side)
    ensures AsMap(s) == m
    ensures PositiveQuantities(m) ==> PositiveLevels(s)
  {
    s := [];
    var rest := m;
    while rest.Keys != {}
      invariant Ordered(s, side)
      invariant AsMap(s).Keys !! rest.Keys
      invariant AsMap(s) + rest == m
      invariant forall p, i :: p in rest && 0 <= i < |s| ==> Precedes(p, s[i].price, side)
      invariant PositiveQuantities(m) ==> PositiveLevels(s)
      decreases rest.Keys
    {
      LastExists(rest.Keys, side);
      var k :| k in rest && forall p :: p in rest && p != k ==> Precedes(p, k, side);
      PrependLast(s, rest, k, side);
      assert m[k] == rest[k];
      s, rest := [Level(k, rest[k])] + s, rest - {k};
    }
    assert rest == map[];
  }
}
