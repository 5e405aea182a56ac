/** One side of an order book, and absolute level writes to it.

A level write sets the quantity at a price, or removes the price when the
quantity is zero. The lemmas reduce a whole sequence of writes to the last
write at each price. */
module LevelWrites {
  import opened Options
  import opened Collections

  type Side = map<real, real>

  datatype Level = Level(price: real, qty: real)

  function SetLevel(side: Side, level: Level): Side {
    if level.qty == 0.0 then side - {level.price} else side[level.price := level.qty]
  }

  function ApplyLevels(side: Side, levels: seq<Level>): Side {
    if levels == [] then side
    else SetLevel(ApplyLevels(side, levels[..|levels| - 1]), levels[|levels| - 1])
  }

  function Lookup(side: Side, price: real): Option<real> {
    if price in side then Some(side[price]) else None
  }

  /** The quantity that the last write at `price` carries, if there is one. */
  function LastWrite(levels: seq<Level>, price: real): Option<real> {
    if levels == [] then None
    else
      var last := levels[|levels| - 1];
      if last.price == price then Some(last.qty)
      else LastWrite(levels[..|levels| - 1], price)
  }

  /** What `price` holds after `levels` were written over a side that held `before`. */
  function After(write: Option<real>, before: Option<real>): Option<real> {
    match write
    case None => before
    case Some(qty) => if qty == 0.0 then None else Some(qty)
  }

  ghost predicate SameWrites(a: seq<Level>, b: seq<Level>) {
    forall price :: LastWrite(a, price) == LastWrite(b, price)
  }

  ghost predicate NoZeroLevels(side: Side) {
    forall price :: price in side ==> side[price] != 0.0
  }

  /** Only the last write at a price matters. */
  lemma {:induction false} LastWriteWins(side: Side, levels: seq<Level>, price: real)
    ensures Lookup(ApplyLevels(side, levels), price) == After(LastWrite(levels, price), Lookup(side, price))
  {
    if levels == [] {
    } else {
      LastWriteWins(side, levels[..|levels| - 1], price);
    }
  }

  lemma {:induction false} LastWriteOfConcat(a: seq<Level>, b: seq<Level>, price: real)
    ensures LastWrite(a + b, price) == LastWrite(b, price).Or(LastWrite(a, price))
  {
    if b == [] {
      assert a + b == a;
    } else {
      assert (a + b)[..|a + b| - 1] == a + b[..|b| - 1];
      LastWriteOfConcat(a, b[..|b| - 1], price);
    }
  }

  /** Two sides with the same lookups are the same map. */
  lemma SidesEqual(a: Side, b: Side)
    requires forall price :: Lookup(a, price) == Lookup(b, price)
    ensures a == b
  {
    forall price ensures price in a <==> price in b {
      assert Lookup(a, price) == Lookup(b, price);
    }
    assert a.Keys == b.Keys;
    forall price | price in a ensures a[price] == b[price] {
      assert Lookup(a, price) == Lookup(b, price);
    }
  }

  lemma {:induction false} ApplyKeepsNoZero(side: Side, levels: seq<Level>)
    requires NoZeroLevels(side)
    ensures NoZeroLevels(ApplyLevels(side, levels))
  {
    if levels == [] {
    } else {
      ApplyKeepsNoZero(side, levels[..|levels| - 1]);
    }
  }

  // Listing a side in price order

  lemma EmptyOrInhabited(prices: set<real>)
    ensures prices == {} || exists p :: p in prices
  {
    if !exists p :: p in prices {
      assert prices == {};
    }
  }

  lemma {:induction false} LowestExists(prices: set<real>)
    requires prices != {}
    ensures exists low :: low in prices && forall p | p in prices :: low <= p
  {
    EmptyOrInhabited(prices);
    var some :| some in prices;
    var rest := prices - {some};
    assert forall p | p in prices :: p == some || p in rest;
    if rest == {} {
    } else {
      LowestExists(rest);
      var other :| other in rest && forall p | p in rest :: other <= p;
      var low := if other < some then other else some;
      assert low in prices && forall p | p in prices :: low <= p;
    }
  }

  function LowestPrice(side: Side): (low: real)
    requires side != map[]
    ensures low in side && forall p | p in side :: low <= p
  {
    assert exists p :: p in side && forall q | q in side :: p <= q by {
      assert side.Keys != {};
      LowestExists(side.Keys);
      var low :| low in side.Keys && forall q | q in side.Keys :: low <= q;
      assert low in side && forall q | q in side :: low <= q;
    }
    var low :| low in side && forall p | p in side :: low <= p;
    low
  }

  /** The levels of a side from the lowest price up, as an ordered map iterates. */
  function Ascending(side: Side): seq<Level>
    decreases |side|
  {
    if side == map[] then []
    else
      var low := LowestPrice(side);
      [Level(low, side[low])] + Ascending(side - {low})
  }

  function Descending(side: Side): seq<Level> {
    Reversed(Ascending(side))
  }

  function Reversed(levels: seq<Level>): (r: seq<Level>)
    ensures |r| == |levels|
    ensures forall i :: 0 <= i < |r| ==> r[i] == levels[|levels| - 1 - i]
  {
    if levels == [] then [] else Reversed(levels[1..]) + [levels[0]]
  }

  function Take(levels: seq<Level>, depth: nat): seq<Level> {
    if depth < |levels| then levels[..depth] else levels
  }

  /** Prices strictly rise, and every level is an entry of `side`, each entry once. */
  ghost predicate Lists(levels: seq<Level>, side: Side) {
    && |levels| == |side|
    && forall i :: 0 <= i < |levels| ==> levels[i].price in side && side[levels[i].price] == levels[i].qty
  }

  ghost predicate PricesRise(levels: seq<Level>) {
    forall i, j :: 0 <= i < j < |levels| ==> levels[i].price < levels[j].price
  }

  ghost predicate PricesDistinct(levels: seq<Level>) {
    forall i, j :: 0 <= i < j < |levels| ==> levels[i].price != levels[j].price
  }

  ghost predicate HasPrice(levels: seq<Level>, price: real) {
    exists i :: 0 <= i < |levels| && levels[i].price == price
  }

  lemma {:induction false} AscendingLists(side: Side)
    ensures Lists(Ascending(side), side)
    ensures PricesRise(Ascending(side))
    decreases |side|
  {
    if side == map[] {
    } else {
      var low := LowestPrice(side);
      var rest := side - {low};
      AscendingLists(rest);
      SizeWithout(side, low);
      var tail, all := Ascending(rest), Ascending(side);
      forall i | 0 < i < |all|
        ensures all[i] == tail[i - 1] && low < all[i].price
        ensures all[i].price in side && side[all[i].price] == all[i].qty
      {
        assert tail[i - 1].price in rest;
      }
    }
  }

  lemma {:induction false} AscendingComplete(side: Side, price: real)
    requires price in side
    ensures HasPrice(Ascending(side), price)
    decreases |side|
  {
    var low := LowestPrice(side);
    var rest := side - {low};
    SizeWithout(side, low);
    if price == low {
      assert Ascending(side)[0].price == price;
    } else {
      AscendingComplete(rest, price);
      var i :| 0 <= i < |Ascending(rest)| && Ascending(rest)[i].price == price;
      assert Ascending(side)[i + 1].price == price;
    }
  }

  ghost predicate PricesFall(levels: seq<Level>) {
    forall i, j :: 0 <= i < j < |levels| ==> levels[i].price > levels[j].price
  }

  lemma DescendingLists(side: Side)
    ensures Lists(Descending(side), side)
    ensures PricesFall(Descending(side))
  {
    AscendingLists(side);
  }

  lemma DescendingComplete(side: Side, price: real)
    requires price in side
    ensures HasPrice(Descending(side), price)
  {
    AscendingComplete(side, price);
    var rising := Ascending(side);
    var k :| 0 <= k < |rising| && rising[k].price == price;
    assert Descending(side)[|rising| - 1 - k].price == price;
  }

  /** A price left out of the best `depth` levels comes after all of them. */
  lemma LeftOutComesAfter(levels: seq<Level>, depth: nat, i: nat, price: real)
    requires HasPrice(levels, price) && !HasPrice(Take(levels, depth), price) && i < |Take(levels, depth)|
    ensures PricesRise(levels) ==> Take(levels, depth)[i].price < price
    ensures PricesFall(levels) ==> Take(levels, depth)[i].price > price
  {
    var k :| 0 <= k < |levels| && levels[k].price == price;
  }

  /** A level list with distinct prices writes exactly its own quantities. */
  lemma {:induction false} LastWriteOfDistinct(levels: seq<Level>, i: nat)
    requires PricesDistinct(levels) && i < |levels|
    ensures LastWrite(levels, levels[i].price) == Some(levels[i].qty)
  {
    if i == |levels| - 1 {
    } else {
      LastWriteOfDistinct(levels[..|levels| - 1], i);
    }
  }

  lemma {:induction false} LastWriteOfAbsent(levels: seq<Level>, price: real)
    requires !HasPrice(levels, price)
    ensures LastWrite(levels, price) == None
  {
    if levels == [] {
    } else {
      var init := levels[..|levels| - 1];
      assert levels[|levels| - 1].price != price;
      assert forall i | 0 <= i < |init| :: init[i] == levels[i];
      LastWriteOfAbsent(init, price);
    }
  }

  /** Writing any complete listing of a side over an empty side rebuilds it. */
  lemma ListingRebuilds(side: Side, levels: seq<Level>)
    requires NoZeroLevels(side) && Lists(levels, side) && PricesDistinct(levels)
    requires forall p :: p in side ==> HasPrice(levels, p)
    ensures ApplyLevels(map[], levels) == side
  {
    var rebuilt := ApplyLevels(map[], levels);
    forall p ensures Lookup(rebuilt, p) == Lookup(side, p) {
      LastWriteWins(map[], levels, p);
      if p in side {
        var i :| 0 <= i < |levels| && levels[i].price == p;
        LastWriteOfDistinct(levels, i);
      } else {
        LastWriteOfAbsent(levels, p);
      }
    }
    SidesEqual(rebuilt, side);
  }

  /** Entry `i` of `levels` is the last one at its price. */
  ghost predicate LastAt(levels: seq<Level>, i: nat) {
    i < |levels| && forall j :: i < j < |levels| ==> levels[j].price != levels[i].price
  }

  /** `after` is `before` with every price that occurs in `levels` set to the quantity of its
  last entry there, or removed when that quantity is zero, and every other price as it was. */
  ghost predicate Overwritten(before: Side, levels: seq<Level>, after: Side) {
    && (forall i: nat :: LastAt(levels, i) ==>
          if levels[i].qty == 0.0 then levels[i].price !in after
          else levels[i].price in after && after[levels[i].price] == levels[i].qty)
    && forall p: real :: !HasPrice(levels, p) ==>
         (p in after <==> p in before) && (p in after ==> after[p] == before[p])
  }

  lemma {:induction false} LastWriteAt(levels: seq<Level>, i: nat)
    requires LastAt(levels, i)
    ensures LastWrite(levels, levels[i].price) == Some(levels[i].qty)
  {
    if i == |levels| - 1 {
    } else {
      var init := levels[..|levels| - 1];
      assert LastAt(init, i);
      LastWriteAt(init, i);
    }
  }

  lemma WritesOverwrite(side: Side, levels: seq<Level>)
    ensures Overwritten(side, levels, ApplyLevels(side, levels))
  {
    var after := ApplyLevels(side, levels);
    forall i: nat | LastAt(levels, i)
      ensures if levels[i].qty == 0.0 then levels[i].price !in after
              else levels[i].price in after && after[levels[i].price] == levels[i].qty
    {
      LastWriteAt(levels, i);
      LastWriteWins(side, levels, levels[i].price);
    }
    forall p: real | !HasPrice(levels, p)
      ensures (p in after <==> p in side) && (p in after ==> after[p] == side[p])
    {
      LastWriteOfAbsent(levels, p);
      LastWriteWins(side, levels, p);
    }
  }

  lemma {:induction false} LastEntryExists(levels: seq<Level>, price: real) returns (i: nat)
    requires HasPrice(levels, price)
    ensures LastAt(levels, i) && levels[i].price == price
  {
    if levels[|levels| - 1].price == price {
      i := |levels| - 1;
    } else {
      i := LastEntryExists(levels[..|levels| - 1], price);
    }
  }

  /** So the side afterwards is determined, whatever order the writes are done in. */
  lemma OverwrittenIsUnique(before: Side, levels: seq<Level>, a: Side, b: Side)
    requires Overwritten(before, levels, a) && Overwritten(before, levels, b)
    ensures a == b
  {
    forall p: real ensures Lookup(a, p) == Lookup(b, p) {
      if HasPrice(levels, p) {
        var i := LastEntryExists(levels, p);
      }
    }
    SidesEqual(a, b);
  }

  lemma OverwrittenTwice(before: Side, first: seq<Level>, mid: Side, second: seq<Level>, after: Side)
    requires Overwritten(before, first, mid) && Overwritten(mid, second, after)
    ensures Overwritten(before, first + second, after)
  {
    WritesOverwrite(before, first);
    OverwrittenIsUnique(before, first, mid, ApplyLevels(before, first));
    WritesOverwrite(mid, second);
    OverwrittenIsUnique(mid, second, after, ApplyLevels(mid, second));
    ApplyConcat(before, first, second);
    WritesOverwrite(before, first + second);
  }

  lemma {:induction false} ApplyConcat(side: Side, a: seq<Level>, b: seq<Level>)
    ensures ApplyLevels(side, a + b) == ApplyLevels(ApplyLevels(side, a), b)
  {
    if b == [] {
      assert a + b == a;
    } else {
      assert (a + b)[..|a + b| - 1] == a + b[..|b| - 1];
      ApplyConcat(side, a, b[..|b| - 1]);
    }
  }
}
