/**
 * The order book view's data logic: splitting the grid snapshot's zones
 * into an ask side and a bid side, the best quote of each side, and the
 * two prices a zone row shows.
 */
module OrderBook {
  import opened Wrappers

  /** One price band of the grid, as received in the grid snapshot. */
  datatype Zone = Zone(
    index: int,
    buy_price: real,
    sell_price: real,
    size: real,
    order_side: string,
    has_order: bool,
    is_reduce_only: bool,
    roundtrip_count: int)

  /** A zone belongs to the ask side exactly when its pending side is the string `Sell`. */
  predicate IsAsk(z: Zone)
  {
    z.order_side == "Sell"
  }

  /** `!lastPrice`: no price received yet, or a price of zero. */
  predicate PriceMissing(lastPrice: Option<real>)
  {
    lastPrice.None? || lastPrice.value == 0.0
  }

  /** Highest `sell_price` first. */
  ghost predicate Descending(s: seq<Zone>)
  {
    forall i, j | 0 <= i < j < |s| :: s[i].sell_price >= s[j].sell_price
  }

  /** Lowest `sell_price` first. */
  ghost predicate Ascending(s: seq<Zone>)
  {
    forall i, j | 0 <= i < j < |s| :: s[i].sell_price <= s[j].sell_price
  }

  /**
   * Puts `z` into the descending sequence `s` ahead of every zone whose
   * price is not above its own.
   */
  function InsertDescending(z: Zone, s: seq<Zone>): (r: seq<Zone>)
    ensures multiset(r) == multiset(s) + multiset{z}
    ensures Descending(s) ==> Descending(r)
  {
    if s == [] || s[0].sell_price <= z.sell_price then
      [z] + s
    else
      var rest := InsertDescending(z, s[1..]);
      assert s == [s[0]] + s[1..];
      assert Descending(s) ==> Descending([s[0]] + rest) by {
        if Descending(s) {
          assert Descending(s[1..]);
          InsertBelowHead(z, s, rest);
        }
      }
      [s[0]] + rest
  }

  /** Prefixing descending `t` with a zone priced at least as high as any of `t` keeps it descending. */
  lemma AppendDescending(h: seq<Zone>, t: seq<Zone>)
    requires |h| == 1 && Descending(t)
    requires forall x | x in t :: x.sell_price <= h[0].sell_price
    ensures Descending(h + t)
  {
  }

  /**
   * After `z` went into the tail of descending `s` (whose head is priced
   * above `z`), putting the head back in front keeps the result descending.
   */
  lemma InsertBelowHead(z: Zone, s: seq<Zone>, rest: seq<Zone>)
    requires s != [] && s[0].sell_price > z.sell_price && Descending(s)
    requires Descending(rest) && multiset(rest) == multiset(s[1..]) + multiset{z}
    ensures Descending([s[0]] + rest)
  {
    forall x | x in rest ensures x.sell_price <= s[0].sell_price {
      assert x in multiset(rest);
      if x != z {
        assert x in multiset(s[1..]);
        var k :| 0 <= k < |s[1..]| && s[1..][k] == x;
        assert s[k + 1] == x;
      }
    }
    AppendDescending([s[0]], rest);
  }

  /**
   * `[...zones].sort((a, b) => b.sell_price - a.sell_price)`: a stable
   * sort by `sell_price`, highest first, of a copy of the zones.
   */
  function SortByPriceDescending(zones: seq<Zone>): (r: seq<Zone>)
    ensures multiset(r) == multiset(zones)
    ensures Descending(r)
  {
    if zones == [] then []
    else
      assert zones == [zones[0]] + zones[1..];
      InsertDescending(zones[0], SortByPriceDescending(zones[1..]))
  }

  /** The zones of `s` that are asks, in the order of `s`. */
  function SellSide(s: seq<Zone>): (r: seq<Zone>)
    ensures forall k | 0 <= k < |r| :: IsAsk(r[k])
  {
    if s == [] then []
    else SellSide(s[..|s| - 1]) + (if IsAsk(s[|s| - 1]) then [s[|s| - 1]] else [])
  }

  /** The zones of `s` that are not asks, in the order of `s`. */
  function BuySide(s: seq<Zone>): (r: seq<Zone>)
    ensures forall k | 0 <= k < |r| :: !IsAsk(r[k])
  {
    if s == [] then []
    else BuySide(s[..|s| - 1]) + (if IsAsk(s[|s| - 1]) then [] else [s[|s| - 1]])
  }

  /** `s` read back to front. */
  function Reversed(s: seq<Zone>): (r: seq<Zone>)
    ensures |r| == |s|
  {
    if s == [] then [] else [s[|s| - 1]] + Reversed(s[..|s| - 1])
  }

  /**
   * The ask side as shown: asks of the sorted copy, reversed, so that it
   * runs from the lowest sell price up (the zone nearest the price first).
   */
  function AsksOf(zones: seq<Zone>): (asks: seq<Zone>)
    ensures forall k | 0 <= k < |asks| :: IsAsk(asks[k])
    ensures Ascending(asks)
  {
    var sells := SellSide(SortByPriceDescending(zones));
    SidesKeepOrder(SortByPriceDescending(zones));
    ReversedFlips(sells);
    forall k | 0 <= k < |sells| ensures IsAsk(Reversed(sells)[k]) {
      ReversedAt(sells, k);
    }
    Reversed(sells)
  }

  /**
   * The bid side as shown: non-asks of the sorted copy, running from the
   * highest sell price down (the zone nearest the price first).
   */
  function BidsOf(zones: seq<Zone>): (bids: seq<Zone>)
    ensures forall k | 0 <= k < |bids| :: !IsAsk(bids[k])
    ensures Descending(bids)
  {
    SidesKeepOrder(SortByPriceDescending(zones));
    BuySide(SortByPriceDescending(zones))
  }

  /** Every zone lands on exactly one side. */
  lemma {:induction false} SidesPartition(s: seq<Zone>)
    ensures multiset(SellSide(s)) + multiset(BuySide(s)) == multiset(s)
  {
    if s != [] {
      SidesPartition(s[..|s| - 1]);
      assert s == s[..|s| - 1] + [s[|s| - 1]];
    }
  }

  /** Each side holds only zones of `s`. */
  lemma {:induction false} SideMembers(s: seq<Zone>, z: Zone)
    ensures z in SellSide(s) ==> z in s
    ensures z in BuySide(s) ==> z in s
  {
    if s != [] {
      SideMembers(s[..|s| - 1], z);
      assert s == s[..|s| - 1] + [s[|s| - 1]];
    }
  }

  /** Extending descending `t` with a zone priced no higher than any of `t` keeps it descending. */
  lemma ExtendDescending(t: seq<Zone>, last: Zone)
    requires Descending(t)
    requires forall x | x in t :: x.sell_price >= last.sell_price
    ensures Descending(t + [last])
  {
  }

  /** Picking one side keeps the descending order. */
  lemma {:induction false} SidesKeepOrder(s: seq<Zone>)
    requires Descending(s)
    ensures Descending(SellSide(s)) && Descending(BuySide(s))
  {
    if s != [] {
      var init, last := s[..|s| - 1], s[|s| - 1];
      assert Descending(init);
      SidesKeepOrder(init);
      forall x | x in init ensures x.sell_price >= last.sell_price {
        var k :| 0 <= k < |init| && init[k] == x;
        assert s[k] == x;
      }
      forall x | x in SellSide(init) ensures x.sell_price >= last.sell_price {
        SideMembers(init, x);
      }
      forall x | x in BuySide(init) ensures x.sell_price >= last.sell_price {
        SideMembers(init, x);
      }
      if IsAsk(last) {
        ExtendDescending(SellSide(init), last);
      } else {
        ExtendDescending(BuySide(init), last);
      }
    }
  }

  lemma {:induction false} ReversedAt(s: seq<Zone>, k: int)
    requires 0 <= k < |s|
    ensures |Reversed(s)| == |s| && Reversed(s)[k] == s[|s| - 1 - k]
  {
    if k > 0 {
      ReversedAt(s[..|s| - 1], k - 1);
    } else if |s| > 1 {
      ReversedAt(s[..|s| - 1], 0);
    }
  }

  /** Reversal keeps the zones and turns descending into ascending. */
  lemma ReversedFlips(s: seq<Zone>)
    ensures multiset(Reversed(s)) == multiset(s)
    ensures Descending(s) ==> Ascending(Reversed(s))
  {
    ReversedMultiset(s);
    if s != [] {
      forall k | 0 <= k < |s| ensures |Reversed(s)| == |s| && Reversed(s)[k] == s[|s| - 1 - k] {
        ReversedAt(s, k);
      }
    } else {
      assert Reversed(s) == [];
    }
  }

  lemma {:induction false} ReversedMultiset(s: seq<Zone>)
    ensures multiset(Reversed(s)) == multiset(s)
  {
    if s != [] {
      ReversedMultiset(s[..|s| - 1]);
      assert s == s[..|s| - 1] + [s[|s| - 1]];
    }
  }

  /**
   * The split is a permutation of the snapshot: every zone is on exactly
   * one side, the asks are the `Sell` zones and the bids all others.
   */
  lemma SplitIsPartition(zones: seq<Zone>)
    ensures multiset(AsksOf(zones) + BidsOf(zones)) == multiset(zones)
    ensures |AsksOf(zones)| + |BidsOf(zones)| == |zones|
    ensures forall z | z in zones :: (z in AsksOf(zones) <==> IsAsk(z))
    ensures forall z | z in zones :: (z in BidsOf(zones) <==> !IsAsk(z))
  {
    var sorted := SortByPriceDescending(zones);
    SidesPartition(sorted);
    ReversedFlips(SellSide(sorted));
    assert multiset(AsksOf(zones)) == multiset(SellSide(sorted));
    forall z | z in zones ensures (z in AsksOf(zones) <==> IsAsk(z)) && (z in BidsOf(zones) <==> !IsAsk(z)) {
      assert z in multiset(sorted);
      assert z in multiset(AsksOf(zones)) <==> z in AsksOf(zones);
      assert z in multiset(BidsOf(zones)) <==> z in BidsOf(zones);
    }
    assert |multiset(AsksOf(zones) + BidsOf(zones))| == |multiset(zones)|;
  }

  /** Reverses `a` in place (`Array.prototype.reverse`). */
  method ReverseInPlace(a: array<Zone>)
    modifies a
    ensures a[..] == Reversed(old(a[..]))
  {
    var n := a.Length;
    var lo := 0;
    while lo < n / 2
      invariant 0 <= lo <= n / 2
      invariant forall k | 0 <= k < lo :: a[k] == old(a[n - 1 - k]) && a[n - 1 - k] == old(a[k])
      invariant forall k | lo <= k < n - lo :: a[k] == old(a[k])
    {
      a[lo], a[n - 1 - lo] := a[n - 1 - lo], a[lo];
      lo := lo + 1;
    }
    ghost var before := old(a[..]);
    if n == 0 {
      assert before == [];
    } else {
      forall k | 0 <= k < n ensures a[..][k] == Reversed(before)[k] {
        ReversedAt(before, k);
      }
      ReversedAt(before, 0);
    }
  }

  /**
   * The order book's memoised split. `zones` is the grid snapshot's zone
   * array (`null` when no snapshot has arrived); it is read, never written.
   */
  method SplitSides(zones: array?<Zone>, lastPrice: Option<real>) returns (asks: seq<Zone>, bids: seq<Zone>)
    ensures zones == null || PriceMissing(lastPrice) ==> asks == [] && bids == []
    ensures zones != null && !PriceMissing(lastPrice) ==> asks == AsksOf(zones[..]) && bids == BidsOf(zones[..])
  {
    if zones == null || PriceMissing(lastPrice) {
      return [], [];
    }
    var sorted := SortByPriceDescending(zones[..]);
    var sells: seq<Zone> := [];
    bids := [];
    var i := 0;
    while i < |sorted|
      invariant 0 <= i <= |sorted|
      invariant sells == SellSide(sorted[..i])
      invariant bids == BuySide(sorted[..i])
    {
      var zone := sorted[i];
      assert sorted[..i + 1][..i] == sorted[..i];
      if zone.order_side == "Sell" {
        sells := sells + [zone];
      } else {
        bids := bids + [zone];
      }
      i := i + 1;
    }
    assert sorted[..i] == sorted;
    var askArray := new Zone[|sells|](k requires 0 <= k < |sells| => sells[k]);
    assert askArray[..] == sells;
    ReverseInPlace(askArray);
    asks := askArray[..];
  }

  /** `side.length > 0 ? side[0] : null`: the first zone of a side, if any. */
  function BestOf(side: seq<Zone>): (best: Option<Zone>)
    ensures best.Some? <==> |side| > 0
    ensures best.Some? ==> best.value == side[0]
  {
    if |side| > 0 then Some(side[0]) else None
  }

  /**
   * The spread between the best ask's sell price and the best bid's buy
   * price, in percent of the last price; shown only when both sides have
   * a zone. The view reaches this point only with a non-zero last price.
   */
  function SpreadPercent(asks: seq<Zone>, bids: seq<Zone>, lastPrice: real): (spread: Option<real>)
    requires lastPrice != 0.0
    ensures spread.Some? <==> asks != [] && bids != []
  {
    match (BestOf(asks), BestOf(bids))
    case (Some(bestAsk), Some(bestBid)) => Some((bestAsk.sell_price - bestBid.buy_price) / lastPrice * 100.0)
    case _ => None
  }

  /**
   * The best ask is the `Sell` zone with the lowest sell price; it exists
   * exactly when the snapshot has a `Sell` zone.
   */
  lemma BestAskIsLowest(zones: seq<Zone>)
    ensures BestOf(AsksOf(zones)).Some? <==> exists z | z in zones :: IsAsk(z)
    ensures BestOf(AsksOf(zones)).Some? ==>
      var best := BestOf(AsksOf(zones)).value;
      best in zones && IsAsk(best) &&
      forall z | z in zones && IsAsk(z) :: best.sell_price <= z.sell_price
  {
    var asks := AsksOf(zones);
    SplitIsPartition(zones);
    if asks != [] {
      assert asks[0] in asks;
      assert asks[0] in multiset(asks + BidsOf(zones));
      forall z | z in zones && IsAsk(z) ensures asks[0].sell_price <= z.sell_price {
        var k :| 0 <= k < |asks| && asks[k] == z;
      }
    }
  }

  /**
   * The best bid is the non-`Sell` zone with the highest sell price; it
   * exists exactly when the snapshot has such a zone.
   */
  lemma BestBidIsHighest(zones: seq<Zone>)
    ensures BestOf(BidsOf(zones)).Some? <==> exists z | z in zones :: !IsAsk(z)
    ensures BestOf(BidsOf(zones)).Some? ==>
      var best := BestOf(BidsOf(zones)).value;
      best in zones && !IsAsk(best) &&
      forall z | z in zones && !IsAsk(z) :: best.sell_price >= z.sell_price
  {
    var bids := BidsOf(zones);
    SplitIsPartition(zones);
    if bids != [] {
      assert bids[0] in bids;
      assert bids[0] in multiset(AsksOf(zones) + bids);
      forall z | z in zones && !IsAsk(z) ensures bids[0].sell_price >= z.sell_price {
        var k :| 0 <= k < |bids| && bids[k] == z;
      }
    }
  }

  /** A spread is shown exactly when the snapshot has zones of both sides. */
  lemma SpreadShownIffBothSides(zones: seq<Zone>, lastPrice: real)
    requires lastPrice != 0.0
    ensures SpreadPercent(AsksOf(zones), BidsOf(zones), lastPrice).Some? <==>
      (exists z | z in zones :: IsAsk(z)) && (exists z | z in zones :: !IsAsk(z))
  {
    BestAskIsLowest(zones);
    BestBidIsHighest(zones);
  }

  /** Which side of the book a zone row is drawn on. */
  datatype RowSide = AskRow | BidRow

  /**
   * A zone row's price pair (display price, next price): an ask row shows
   * the sell price with the buy price as the next price, a bid row the
   * reverse.
   */
  function RowPrices(zone: Zone, side: RowSide): (prices: (real, real))
    ensures side == AskRow ==> prices == (zone.sell_price, zone.buy_price)
    ensures side == BidRow ==> prices == (zone.buy_price, zone.sell_price)
  {
    var isAsk := side == AskRow;
    (if isAsk then zone.sell_price else zone.buy_price,
     if isAsk then zone.buy_price else zone.sell_price)
  }

  /** The two sides show the same two prices, swapped. */
  lemma RowPricesMirror(zone: Zone)
    ensures RowPrices(zone, AskRow).0 == RowPrices(zone, BidRow).1
    ensures RowPrices(zone, AskRow).1 == RowPrices(zone, BidRow).0
    ensures multiset{RowPrices(zone, AskRow).0, RowPrices(zone, AskRow).1} == multiset{zone.buy_price, zone.sell_price}
  {
  }
}
