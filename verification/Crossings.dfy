/** Which prints of a tape fill a resting order, and when: the volumes of a replay from the crossing prints alone. */
module Crossings {
  import opened Replay
  import opened Sorting
  import opened Wrappers

  // ----- the prints that fill a bid, and those that fill an ask -----

  /** Printed while the order rested. */
  function During(t0: int, t1: Option<int>): Print -> bool {
    (p: Print) => t0 <= p.ts && (t1.None? || p.ts <= t1.value)
  }

  /** Somebody sells our token at or below the bid. */
  function SoldToBid(bid: real, t0: int, t1: Option<int>): Print -> bool {
    (p: Print) => t0 <= p.ts && (t1.None? || p.ts <= t1.value)
      && p.ours && p.taker == Sell && p.price - bid <= 0.000000001
  }

  /** Or buys its complement, which amounts to the same at one minus the price. */
  function FillsBid(bid: real, t0: int, t1: Option<int>, complement: bool): Print -> bool {
    (p: Print) => t0 <= p.ts && (t1.None? || p.ts <= t1.value) && p.size > 0.0
      && if p.ours then p.taker == Sell && p.price - bid <= 0.000000001
         else complement && p.taker == Buy && (1.0 - p.price) - bid <= 0.000000001
  }

  /** Somebody buys our token at or above the ask. */
  function BoughtFromAsk(ask: real, t0: int, t1: Option<int>): Print -> bool {
    (p: Print) => t0 <= p.ts && (t1.None? || p.ts <= t1.value)
      && p.ours && p.taker == Buy && ask - p.price <= 0.000000001
  }

  /** Or sells its complement. */
  function FillsAsk(ask: real, t0: int, t1: Option<int>, complement: bool): Print -> bool {
    (p: Print) => t0 <= p.ts && (t1.None? || p.ts <= t1.value) && p.size > 0.0
      && if p.ours then p.taker == Buy && ask - p.price <= 0.000000001
         else complement && p.taker == Sell && ask - (1.0 - p.price) <= 0.000000001
  }

  // ----- a list of prints that all count -----

  function Total(prints: seq<Print>): real {
    if prints == [] then 0.0 else Total(prints[..|prints| - 1]) + prints[|prints| - 1].size
  }

  /** When the sizes so far first add up to `q`. */
  function TimeOfTotal(prints: seq<Print>, q: real): Option<int> {
    if prints == [] then None
    else
      var init := prints[..|prints| - 1];
      if TimeOfTotal(init, q).Some? then TimeOfTotal(init, q)
      else if Total(prints) >= q then Some(prints[|prints| - 1].ts)
      else None
  }

  lemma TotalSnoc(prints: seq<Print>, p: Print, q: real)
    ensures Total(prints + [p]) == Total(prints) + p.size
    ensures TimeOfTotal(prints + [p], q) ==
      if TimeOfTotal(prints, q).Some? then TimeOfTotal(prints, q)
      else if Total(prints) + p.size >= q then Some(p.ts) else None
  {
    assert (prints + [p])[..|prints|] == prints;
  }

  /** The prints that count for an order, and those on its own token. */
  function Fills(o: Order): Print -> bool {
    if o.bid then FillsBid(o.price, o.t0, o.t1, o.complement) else FillsAsk(o.price, o.t0, o.t1, o.complement)
  }

  function OwnHits(o: Order): Print -> bool {
    if o.bid then SoldToBid(o.price, o.t0, o.t1) else BoughtFromAsk(o.price, o.t0, o.t1)
  }

  lemma VolumeFills(o: Order, p: Print)
    ensures Volume(o, p) == if Fills(o)(p) then p.size else 0.0
    ensures Fills(o)(p) ==> p.size > 0.0
    ensures OwnSize(o, p) == if OwnHits(o)(p) then p.size else 0.0
  {
  }

  /** `f` picks out the prints that bring volume to the order. */
  ghost predicate Picks(o: Order, f: Print -> bool) {
    forall p :: Volume(o, p) == (if f(p) then p.size else 0.0) && (f(p) ==> p.size > 0.0)
  }

  ghost predicate PicksOwn(o: Order, f: Print -> bool) {
    forall p :: OwnSize(o, p) == if f(p) then p.size else 0.0
  }

  lemma {:induction false} VolumeUpTo(o: Order, tape: seq<Print>, n: nat, f: Print -> bool)
    requires n <= |tape| && Picks(o, f)
    ensures Crossed(o, tape, n) == Total(Seen(tape, n, f))
  {
    if n > 0 {
      VolumeUpTo(o, tape, n - 1, f);
      SeenNext(tape, n - 1, f);
      TotalSnoc(Seen(tape, n - 1, f), tape[n - 1], 0.0);
    }
  }

  lemma {:induction false} OwnVolumeUpTo(o: Order, tape: seq<Print>, n: nat, f: Print -> bool)
    requires n <= |tape| && PicksOwn(o, f)
    ensures OwnVolume(o, tape, n) == Total(Seen(tape, n, f))
  {
    if n > 0 {
      OwnVolumeUpTo(o, tape, n - 1, f);
      SeenNext(tape, n - 1, f);
      TotalSnoc(Seen(tape, n - 1, f), tape[n - 1], 0.0);
    }
  }

  lemma ReachesExactly(o: Order, tape: seq<Print>, q: real, n: nat, f: Print -> bool)
    requires n < |tape| && Picks(o, f)
    ensures Reaches(o, tape, q, n) <==> f(tape[n]) && Total(Seen(tape, n, f)) + tape[n].size >= q
  {
    VolumeUpTo(o, tape, n, f);
  }

  lemma {:induction false} TimeUpTo(o: Order, tape: seq<Print>, q: real, n: nat, f: Print -> bool)
    requires n <= |tape| && Picks(o, f)
    ensures TimeOf(tape, FirstReach(o, tape, q, n)) == TimeOfTotal(Seen(tape, n, f), q)
  {
    if n > 0 {
      TimeUpTo(o, tape, q, n - 1, f);
      ReachesExactly(o, tape, q, n - 1, f);
      SeenNext(tape, n - 1, f);
      TotalSnoc(Seen(tape, n - 1, f), tape[n - 1], q);
    }
  }

  lemma ReplayIsTotal(o: Order, tape: seq<Print>, shares: real)
    ensures var fill, all := FillOf(o, tape, shares), Filter(tape, Fills(o));
      && fill.ts == TimeOfTotal(all, shares) && fill.touch == TimeOfTotal(all, 1.0) && fill.both == Total(all)
      && fill.same == Total(Filter(tape, OwnHits(o)))
  {
    var f, g := Fills(o), OwnHits(o);
    assert Picks(o, f) && PicksOwn(o, g) by {
      forall p ensures Volume(o, p) == (if f(p) then p.size else 0.0) && (f(p) ==> p.size > 0.0) { VolumeFills(o, p); }
      forall p ensures OwnSize(o, p) == if g(p) then p.size else 0.0 { VolumeFills(o, p); }
    }
    VolumeUpTo(o, tape, |tape|, f);
    OwnVolumeUpTo(o, tape, |tape|, g);
    TimeUpTo(o, tape, shares, |tape|, f);
    TimeUpTo(o, tape, MIN_ORDER_SHARES, |tape|, f);
    SeenAll(tape, f);
    SeenAll(tape, g);
  }

  // ----- the main results -----

  /** A bid is filled by the prints that sell our token to it, or buy the complement from it, while it rests, and by
      no others: the replay is the running total of those. */
  lemma BidIsFilledBy(tape: seq<Print>, bid: real, t0: int, t1: Option<int>, shares: real, complement: bool)
    ensures var fill := FillOf(Order(true, bid, t0, t1, complement), tape, shares);
      var all := Filter(tape, FillsBid(bid, t0, t1, complement));
      && fill.ts == TimeOfTotal(all, shares) && fill.touch == TimeOfTotal(all, 1.0) && fill.both == Total(all)
      && fill.same == Total(Filter(tape, SoldToBid(bid, t0, t1)))
  {
    ReplayIsTotal(Order(true, bid, t0, t1, complement), tape, shares);
  }

  /** And an ask likewise. */
  lemma AskIsFilledBy(tape: seq<Print>, ask: real, t0: int, t1: Option<int>, shares: real, complement: bool)
    ensures var fill := FillOf(Order(false, ask, t0, t1, complement), tape, shares);
      var all := Filter(tape, FillsAsk(ask, t0, t1, complement));
      && fill.ts == TimeOfTotal(all, shares) && fill.touch == TimeOfTotal(all, 1.0) && fill.both == Total(all)
      && fill.same == Total(Filter(tape, BoughtFromAsk(ask, t0, t1)))
  {
    ReplayIsTotal(Order(false, ask, t0, t1, complement), tape, shares);
  }

  lemma {:induction false} TimeIsOfPrint(prints: seq<Print>, q: real) returns (p: Print)
    requires TimeOfTotal(prints, q).Some?
    ensures p in prints && p.ts == TimeOfTotal(prints, q).value
  {
    var init := prints[..|prints| - 1];
    if TimeOfTotal(init, q).Some? { p := TimeIsOfPrint(init, q); } else { p := prints[|prints| - 1]; }
  }

  lemma {:induction false} FilterTwice<T>(s: seq<T>, p: T -> bool, q: T -> bool)
    requires forall x :: q(x) ==> p(x)
    ensures Filter(Filter(s, p), q) == Filter(s, q)
  {
    if s != [] {
      FilterTwice(s[1..], p, q);
      if p(s[0]) { assert Filter(s, p)[1..] == Filter(s[1..], p); }
    }
  }

  /** Nothing that was printed before the order was placed, or after the end of its time, plays any part. */
  lemma OnlyWhileResting(o: Order, tape: seq<Print>, shares: real)
    ensures FillOf(o, tape, shares) == FillOf(o, Filter(tape, During(o.t0, o.t1)), shares)
    ensures FillOf(o, tape, shares).ts.Some? ==>
      var t := FillOf(o, tape, shares).ts.value; o.t0 <= t && (o.t1.Some? ==> t <= o.t1.value)
    ensures FillOf(o, tape, shares).touch.Some? ==>
      var t := FillOf(o, tape, shares).touch.value; o.t0 <= t && (o.t1.Some? ==> t <= o.t1.value)
  {
    var fill, rest := FillOf(o, tape, shares), Filter(tape, During(o.t0, o.t1));
    var all := Filter(tape, Fills(o));
    ReplayIsTotal(o, tape, shares);
    ReplayIsTotal(o, rest, shares);
    FilterTwice(tape, During(o.t0, o.t1), Fills(o));
    FilterTwice(tape, During(o.t0, o.t1), OwnHits(o));
    if fill.ts.Some? {
      var p := TimeIsOfPrint(all, shares);
      FilterMember(tape, Fills(o), p);
    }
    if fill.touch.Some? {
      var p := TimeIsOfPrint(all, 1.0);
      FilterMember(tape, Fills(o), p);
    }
  }
}
