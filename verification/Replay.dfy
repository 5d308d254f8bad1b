/** Replaying a trade tape against a resting bid or a resting ask. */
module Replay {
  import opened Wrappers

  datatype Side = Buy | Sell | Other

  /** One taker print: on our token or on its complement, at the price of the token it traded. */
  datatype Print = Print(ts: int, ours: bool, taker: Side, price: real, size: real)

  datatype Fill = Fill(ts: Option<int>, same: real, both: real, touch: Option<int>)

  const EPSILON := 0.000000001
  const MIN_ORDER_SHARES := 1.0

  /** A resting order and the part of the tape it is replayed against. */
  datatype Order = Order(bid: bool, price: real, t0: int, t1: Option<int>, complement: bool)

  predicate InWindow(o: Order, p: Print) {
    o.t0 <= p.ts && (o.t1.Some? ==> p.ts <= o.t1.value)
  }

  predicate HitsOwn(o: Order, p: Print) {
    p.ours &&
      if o.bid then p.taker == Sell && p.price <= o.price + EPSILON
      else p.taker == Buy && p.price >= o.price - EPSILON
  }

  /** Matching through the complement: somebody buys it against our bid, or sells it against our ask. */
  predicate HitsComplement(o: Order, p: Print) {
    && !p.ours && o.complement
    && if o.bid then p.taker == Buy && p.price >= (1.0 - o.price) - EPSILON
       else p.taker == Sell && p.price <= (1.0 - o.price) + EPSILON
  }

  function OwnSize(o: Order, p: Print): real {
    if InWindow(o, p) && HitsOwn(o, p) then p.size else 0.0
  }

  /** The volume a print brings towards the fill. */
  function Volume(o: Order, p: Print): real {
    if InWindow(o, p) && (HitsOwn(o, p) || HitsComplement(o, p)) && p.size > 0.0 then p.size else 0.0
  }

  /** Crossing volume up to and including print `i - 1`. */
  function Crossed(o: Order, tape: seq<Print>, i: nat): real
    requires i <= |tape|
  {
    if i == 0 then 0.0 else Crossed(o, tape, i - 1) + Volume(o, tape[i - 1])
  }

  /** Print `i` crosses, and with it the crossing volume is at least `q`. */
  predicate Reaches(o: Order, tape: seq<Print>, q: real, i: nat)
    requires i < |tape|
  {
    Volume(o, tape[i]) > 0.0 && Crossed(o, tape, i + 1) >= q
  }

  /** The first print that reaches `q`. */
  function FirstReach(o: Order, tape: seq<Print>, q: real, n: nat): (r: Option<nat>)
    requires n <= |tape|
    ensures r.Some? ==> r.value < n && Reaches(o, tape, q, r.value)
    ensures r.Some? ==> forall j: nat :: j < r.value ==> !Reaches(o, tape, q, j)
    ensures r.None? ==> forall j: nat :: j < n ==> !Reaches(o, tape, q, j)
  {
    if n == 0 then None
    else
      match FirstReach(o, tape, q, n - 1)
      case Some(i) => Some(i)
      case None => if Reaches(o, tape, q, n - 1) then Some(n - 1) else None
  }

  function TimeOf(tape: seq<Print>, i: Option<nat>): Option<int>
    requires i.Some? ==> i.value < |tape|
  {
    match i
    case Some(k) => Some(tape[k].ts)
    case None => None
  }

  /** When the order has crossed `q` in volume, if it ever does. */
  function ReachTime(o: Order, tape: seq<Print>, q: real): Option<int> {
    TimeOf(tape, FirstReach(o, tape, q, |tape|))
  }

  function OwnVolume(o: Order, tape: seq<Print>, i: nat): real
    requires i <= |tape|
  {
    if i == 0 then 0.0 else OwnVolume(o, tape, i - 1) + OwnSize(o, tape[i - 1])
  }

  function FillOf(o: Order, tape: seq<Print>, shares: real): Fill {
    Fill(ReachTime(o, tape, shares), OwnVolume(o, tape, |tape|), Crossed(o, tape, |tape|),
      ReachTime(o, tape, MIN_ORDER_SHARES))
  }

  method CrossingBidVolume(tape: seq<Print>, bid: real, t0: int, t1: Option<int>, shares: real, complement: bool)
    returns (fill: Fill)
    ensures fill == FillOf(Order(true, bid, t0, t1, complement), tape, shares)
  {
    ghost var o := Order(true, bid, t0, t1, complement);
    var same, both, fillTs, touchTs: Option<int> := 0.0, 0.0, None, None;
    for i := 0 to |tape|
      invariant same == OwnVolume(o, tape, i) && both == Crossed(o, tape, i)
      invariant fillTs == TimeOf(tape, FirstReach(o, tape, shares, i))
      invariant touchTs == TimeOf(tape, FirstReach(o, tape, MIN_ORDER_SHARES, i))
    {
      var p := tape[i];
      if p.ts < t0 || (t1.Some? && p.ts > t1.value) { continue; }
      var hit := 0.0;
      if p.ours && p.taker == Sell && p.price <= bid + EPSILON {
        hit := p.size;
        same := same + hit;
      } else if !p.ours && complement && p.taker == Buy && p.price >= (1.0 - bid) - EPSILON {
        hit := p.size;
      }
      if hit <= 0.0 { continue; }
      both := both + hit;
      if touchTs.None? && both >= MIN_ORDER_SHARES { touchTs := Some(p.ts); }
      if fillTs.None? && both >= shares { fillTs := Some(p.ts); }
    }
    fill := Fill(fillTs, same, both, touchTs);
  }

  method CrossingAskVolume(tape: seq<Print>, ask: real, t0: int, t1: Option<int>, shares: real, complement: bool)
    returns (fill: Fill)
    ensures fill == FillOf(Order(false, ask, t0, t1, complement), tape, shares)
  {
    ghost var o := Order(false, ask, t0, t1, complement);
    var same, both, fillTs, touchTs: Option<int> := 0.0, 0.0, None, None;
    for i := 0 to |tape|
      invariant same == OwnVolume(o, tape, i) && both == Crossed(o, tape, i)
      invariant fillTs == TimeOf(tape, FirstReach(o, tape, shares, i))
      invariant touchTs == TimeOf(tape, FirstReach(o, tape, MIN_ORDER_SHARES, i))
    {
      var p := tape[i];
      if p.ts < t0 || (t1.Some? && p.ts > t1.value) { continue; }
      var hit := 0.0;
      if p.ours && p.taker == Buy && p.price >= ask - EPSILON {
        hit := p.size;
        same := same + hit;
      } else if !p.ours && complement && p.taker == Sell && p.price <= (1.0 - ask) + EPSILON {
        hit := p.size;
      }
      if hit <= 0.0 { continue; }
      both := both + hit;
      if touchTs.None? && both >= MIN_ORDER_SHARES { touchTs := Some(p.ts); }
      if fillTs.None? && both >= shares { fillTs := Some(p.ts); }
    }
    fill := Fill(fillTs, same, both, touchTs);
  }

  // ----- bid and ask are dual -----

  function Flipped(tape: seq<Print>): (f: seq<Print>)
    ensures |f| == |tape| && forall i :: 0 <= i < |tape| ==> f[i] == tape[i].(ours := !tape[i].ours)
  {
    seq(|tape|, i requires 0 <= i < |tape| => tape[i].(ours := !tape[i].ours))
  }

  function Dual(o: Order): Order { o.(bid := !o.bid, price := 1.0 - o.price) }

  lemma VolumeDual(o: Order, p: Print)
    requires o.complement
    ensures Volume(Dual(o), p.(ours := !p.ours)) == Volume(o, p)
  {
  }

  lemma {:induction false} CrossedDual(o: Order, tape: seq<Print>, i: nat)
    requires o.complement && i <= |tape|
    ensures Crossed(Dual(o), Flipped(tape), i) == Crossed(o, tape, i)
  {
    if i > 0 {
      CrossedDual(o, tape, i - 1);
      VolumeDual(o, tape[i - 1]);
    }
  }

  lemma {:induction false} FirstReachDual(o: Order, tape: seq<Print>, q: real, n: nat)
    requires o.complement && n <= |tape|
    ensures FirstReach(Dual(o), Flipped(tape), q, n) == FirstReach(o, tape, q, n)
  {
    if n > 0 {
      FirstReachDual(o, tape, q, n - 1);
      CrossedDual(o, tape, n);
      VolumeDual(o, tape[n - 1]);
    }
  }

  lemma {:induction false} OwnVolumesAddUp(o: Order, tape: seq<Print>, i: nat)
    requires o.complement && i <= |tape| && forall p :: p in tape ==> p.size >= 0.0
    ensures OwnVolume(o, tape, i) + OwnVolume(Dual(o), Flipped(tape), i) == Crossed(o, tape, i)
  {
    if i > 0 {
      assert tape[i - 1] in tape;
      OwnVolumesAddUp(o, tape, i - 1);
    }
  }

  /** With complement matching on, replaying a bid at `b` and replaying an ask at `1 - b` on the tape with the
      two tokens exchanged give the same fill, first touch and crossing volume; without negative sizes the
      same-token volumes of the two replays add up to the crossing volume. */
  lemma BidAskDuality(o: Order, tape: seq<Print>, shares: real)
    requires o.complement
    ensures var f, g := FillOf(o, tape, shares), FillOf(Dual(o), Flipped(tape), shares);
      f.ts == g.ts && f.touch == g.touch && f.both == g.both
    ensures (forall p :: p in tape ==> p.size >= 0.0) ==>
      FillOf(o, tape, shares).same + FillOf(Dual(o), Flipped(tape), shares).same == FillOf(o, tape, shares).both
  {
    FirstReachDual(o, tape, shares, |tape|);
    FirstReachDual(o, tape, MIN_ORDER_SHARES, |tape|);
    CrossedDual(o, tape, |tape|);
    if forall p :: p in tape ==> p.size >= 0.0 { OwnVolumesAddUp(o, tape, |tape|); }
  }

  // ----- fills are earliest and monotone -----

  predicate Sorted(tape: seq<Print>) {
    forall i, j :: 0 <= i <= j < |tape| ==> tape[i].ts <= tape[j].ts
  }

  /** `o'` asks for no better price than `o`, over a window that contains the one of `o`. */
  predicate Easier(o: Order, o': Order) {
    && o.bid == o'.bid && (if o.bid then o.price <= o'.price else o.price >= o'.price)
    && o'.t0 <= o.t0 && (o'.t1.Some? ==> o.t1.Some? && o.t1.value <= o'.t1.value)
    && (o.complement ==> o'.complement)
  }

  lemma {:induction false} CrossedMonotone(o: Order, o': Order, tape: seq<Print>, i: nat)
    requires Easier(o, o') && i <= |tape|
    ensures Crossed(o, tape, i) <= Crossed(o', tape, i)
  {
    if i > 0 { CrossedMonotone(o, o', tape, i - 1); }
  }

  /** A better price for the other side, a smaller size or a longer window never delays a fill or loses it. */
  lemma FillMonotone(o: Order, o': Order, tape: seq<Print>, q: real, q': real)
    requires Easier(o, o') && q' <= q && Sorted(tape) && ReachTime(o, tape, q).Some?
    ensures ReachTime(o', tape, q').Some? && ReachTime(o', tape, q').value <= ReachTime(o, tape, q).value
  {
    var i := FirstReach(o, tape, q, |tape|).value;
    CrossedMonotone(o, o', tape, i + 1);
    assert Reaches(o', tape, q', i);
  }

  lemma {:induction false} CrossedInWindow(o: Order, o': Order, tape: seq<Print>, i: nat)
    requires i <= |tape| && o == o'.(t1 := o.t1) && Easier(o, o')
    requires forall j :: 0 <= j < i ==> (o.t1.Some? ==> tape[j].ts <= o.t1.value)
    ensures Crossed(o, tape, i) == Crossed(o', tape, i)
  {
    if i > 0 { CrossedInWindow(o, o', tape, i - 1); }
  }

  /** The fill found in a shorter window is the fill found in the longer one, if that lies in the shorter one. */
  lemma FillBeforeExit(o: Order, o': Order, tape: seq<Print>, q: real, t: int)
    requires o == o'.(t1 := o.t1) && Easier(o, o') && Sorted(tape)
    ensures ReachTime(o, tape, q) == Some(t) <==>
      ReachTime(o', tape, q) == Some(t) && (o.t1.Some? ==> t <= o.t1.value)
  {
    var r, r' := FirstReach(o, tape, q, |tape|), FirstReach(o', tape, q, |tape|);
    if r.Some? {
      ReachesInWindow(o, o', tape, q, r.value);
    }
    if r'.Some? && (o.t1.Some? ==> tape[r'.value].ts <= o.t1.value) {
      ReachesInWindow(o, o', tape, q, r'.value);
    }
  }

  lemma ReachesInWindow(o: Order, o': Order, tape: seq<Print>, q: real, i: nat)
    requires o == o'.(t1 := o.t1) && Easier(o, o') && Sorted(tape) && i < |tape|
    requires o.t1.Some? ==> tape[i].ts <= o.t1.value
    ensures forall j: nat :: j <= i ==> Reaches(o, tape, q, j) == Reaches(o', tape, q, j)
  {
    forall j: nat | j <= i ensures Reaches(o, tape, q, j) == Reaches(o', tape, q, j) {
      CrossedInWindow(o, o', tape, j + 1);
    }
  }

  lemma {:induction false} CrossedGrows(o: Order, tape: seq<Print>, i: nat, j: nat)
    requires i <= j <= |tape|
    ensures Crossed(o, tape, i) <= Crossed(o, tape, j)
  {
    if i < j { CrossedGrows(o, tape, i, j - 1); }
  }

  /** An order of positive size fills exactly when the whole crossing volume is enough, and then at the time of
      the first print at which the volume so far is enough: one print earlier it was not. */
  lemma FillExactly(o: Order, tape: seq<Print>, q: real)
    requires q > 0.0
    ensures ReachTime(o, tape, q).Some? <==> Crossed(o, tape, |tape|) >= q
    ensures ReachTime(o, tape, q).Some? ==>
      exists i: nat :: i < |tape| && tape[i].ts == ReachTime(o, tape, q).value
        && Crossed(o, tape, i) < q <= Crossed(o, tape, i + 1)
  {
    var r := FirstReach(o, tape, q, |tape|);
    if Crossed(o, tape, |tape|) >= q {
      var i := CrossingPoint(o, tape, q, |tape|);
      assert Reaches(o, tape, q, i);
    }
    if r.Some? {
      CrossedGrows(o, tape, r.value + 1, |tape|);
      if Crossed(o, tape, r.value) >= q {
        var i := CrossingPoint(o, tape, q, r.value);
        assert Reaches(o, tape, q, i);
      }
    }
  }

  lemma {:induction false} CrossingPoint(o: Order, tape: seq<Print>, q: real, n: nat) returns (i: nat)
    requires n <= |tape| && Crossed(o, tape, n) >= q > 0.0
    ensures i < n && Volume(o, tape[i]) > 0.0 && Crossed(o, tape, i) < q <= Crossed(o, tape, i + 1)
  {
    if Crossed(o, tape, n - 1) >= q {
      i := CrossingPoint(o, tape, q, n - 1);
    } else {
      i := n - 1;
    }
  }
}
