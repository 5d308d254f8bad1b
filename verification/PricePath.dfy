/** The traded-price path on our token after a fill. */
module PricePath {
  import opened Replay
  import opened Wrappers

  datatype Path = Path(high: real, highTs: Option<int>, low: real, lowTs: Option<int>, target: Option<int>,
                       stop: Option<int>)

  // What the extremes are before any print: outside the prices a token can trade at.
  const NO_HIGH := -1.0
  const NO_LOW := 2.0

  function PriceOnOurs(p: Print): real { if p.ours then p.price else 1.0 - p.price }

  function AtLeast(t0: int, level: real): Print -> bool { (p: Print) => p.ts >= t0 && PriceOnOurs(p) >= level }

  function AtMost(t0: int, level: real): Print -> bool { (p: Print) => p.ts >= t0 && PriceOnOurs(p) <= level }

  function FirstWhere(tape: seq<Print>, p: Print -> bool, n: nat): (r: Option<nat>)
    requires n <= |tape|
    ensures r.Some? ==> r.value < n && p(tape[r.value]) && forall j: nat :: j < r.value ==> !p(tape[j])
    ensures r.None? ==> forall j: nat :: j < n ==> !p(tape[j])
  {
    if n == 0 then None
    else
      match FirstWhere(tape, p, n - 1)
      case Some(i) => Some(i)
      case None => if p(tape[n - 1]) then Some(n - 1) else None
  }

  function FirstTime(tape: seq<Print>, p: Print -> bool, n: nat): Option<int>
    requires n <= |tape|
  {
    TimeOf(tape, FirstWhere(tape, p, n))
  }

  /** `high` is the highest of the first `n` prices from `t0` on, and `ts` when it was first traded. */
  ghost predicate IsHigh(tape: seq<Print>, t0: int, n: nat, high: real, ts: Option<int>)
    requires n <= |tape|
  {
    && high >= NO_HIGH
    && (forall i: nat :: i < n && tape[i].ts >= t0 ==> PriceOnOurs(tape[i]) <= high)
    && (high > NO_HIGH ==> ts.Some?)
    && ts == if high > NO_HIGH then FirstTime(tape, AtLeast(t0, high), n) else None
  }

  ghost predicate IsLow(tape: seq<Print>, t0: int, n: nat, low: real, ts: Option<int>)
    requires n <= |tape|
  {
    && low <= NO_LOW
    && (forall i: nat :: i < n && tape[i].ts >= t0 ==> PriceOnOurs(tape[i]) >= low)
    && (low < NO_LOW ==> ts.Some?)
    && ts == if low < NO_LOW then FirstTime(tape, AtMost(t0, low), n) else None
  }

  /** `path` describes the first `n` prints from `t0` on, for a target and a stop level. */
  ghost predicate IsPath(path: Path, tape: seq<Print>, t0: int, target: real, stop: real, n: nat)
    requires n <= |tape|
  {
    && IsHigh(tape, t0, n, path.high, path.highTs)
    && IsLow(tape, t0, n, path.low, path.lowTs)
    && path.target == FirstTime(tape, AtLeast(t0, target), n)
    && path.stop == FirstTime(tape, AtMost(t0, stop), n)
  }

  lemma NextHigh(tape: seq<Print>, t0: int, n: nat, high: real, ts: Option<int>)
    requires n < |tape| && IsHigh(tape, t0, n, high, ts)
    ensures var p := tape[n];
      if p.ts >= t0 && PriceOnOurs(p) > high then IsHigh(tape, t0, n + 1, PriceOnOurs(p), Some(p.ts))
      else IsHigh(tape, t0, n + 1, high, ts)
  {
  }

  lemma NextLow(tape: seq<Print>, t0: int, n: nat, low: real, ts: Option<int>)
    requires n < |tape| && IsLow(tape, t0, n, low, ts)
    ensures var p := tape[n];
      if p.ts >= t0 && PriceOnOurs(p) < low then IsLow(tape, t0, n + 1, PriceOnOurs(p), Some(p.ts))
      else IsLow(tape, t0, n + 1, low, ts)
  {
  }

  lemma NextFirst(tape: seq<Print>, p: Print -> bool, n: nat)
    requires n < |tape|
    ensures FirstTime(tape, p, n + 1) ==
      if FirstTime(tape, p, n).None? && p(tape[n]) then Some(tape[n].ts) else FirstTime(tape, p, n)
  {
  }

  function Extend(path: Path, p: Print, t0: int, target: real, stop: real): Path {
    var px := PriceOnOurs(p);
    if p.ts < t0 then path
    else Path(
      if px > path.high then px else path.high, if px > path.high then Some(p.ts) else path.highTs,
      if px < path.low then px else path.low, if px < path.low then Some(p.ts) else path.lowTs,
      if path.target.None? && px >= target then Some(p.ts) else path.target,
      if path.stop.None? && px <= stop then Some(p.ts) else path.stop)
  }

  function PathOf(tape: seq<Print>, t0: int, target: real, stop: real, n: nat): Path
    requires n <= |tape|
  {
    if n == 0 then Path(NO_HIGH, None, NO_LOW, None, None, None)
    else Extend(PathOf(tape, t0, target, stop, n - 1), tape[n - 1], t0, target, stop)
  }

  method PathAfter(tape: seq<Print>, t0: int, fillPrice: real, tpPct: real, slPct: real) returns (path: Path)
    ensures path == PathOf(tape, t0, fillPrice * (1.0 + tpPct), fillPrice * (1.0 - slPct), |tape|)
  {
    var target, stop := fillPrice * (1.0 + tpPct), fillPrice * (1.0 - slPct);
    path := Path(NO_HIGH, None, NO_LOW, None, None, None);
    for i := 0 to |tape|
      invariant path == PathOf(tape, t0, target, stop, i)
    {
      var p := tape[i];
      if p.ts < t0 { continue; }
      var px := PriceOnOurs(p);
      if px > path.high { path := path.(high := px, highTs := Some(p.ts)); }
      if px < path.low { path := path.(low := px, lowTs := Some(p.ts)); }
      if path.target.None? && px >= target { path := path.(target := Some(p.ts)); }
      if path.stop.None? && px <= stop { path := path.(stop := Some(p.ts)); }
    }
  }

  lemma {:induction false} HighMeaning(tape: seq<Print>, t0: int, target: real, stop: real, n: nat)
    requires n <= |tape|
    ensures var path := PathOf(tape, t0, target, stop, n); IsHigh(tape, t0, n, path.high, path.highTs)
  {
    if n > 0 {
      HighMeaning(tape, t0, target, stop, n - 1);
      var path := PathOf(tape, t0, target, stop, n - 1);
      NextHigh(tape, t0, n - 1, path.high, path.highTs);
    }
  }

  lemma {:induction false} LowMeaning(tape: seq<Print>, t0: int, target: real, stop: real, n: nat)
    requires n <= |tape|
    ensures var path := PathOf(tape, t0, target, stop, n); IsLow(tape, t0, n, path.low, path.lowTs)
  {
    if n > 0 {
      LowMeaning(tape, t0, target, stop, n - 1);
      var path := PathOf(tape, t0, target, stop, n - 1);
      NextLow(tape, t0, n - 1, path.low, path.lowTs);
    }
  }

  lemma {:induction false} LevelMeaning(tape: seq<Print>, t0: int, target: real, stop: real, n: nat)
    requires n <= |tape|
    ensures var path := PathOf(tape, t0, target, stop, n);
      path.target == FirstTime(tape, AtLeast(t0, target), n) && path.stop == FirstTime(tape, AtMost(t0, stop), n)
  {
    if n > 0 {
      LevelMeaning(tape, t0, target, stop, n - 1);
      NextFirst(tape, AtLeast(t0, target), n - 1);
      NextFirst(tape, AtMost(t0, stop), n - 1);
    }
  }

  /** The path names the extremes, when they were first traded, and when each level was first touched. */
  lemma {:induction false} PathMeaning(tape: seq<Print>, t0: int, target: real, stop: real, n: nat)
    requires n <= |tape|
    ensures IsPath(PathOf(tape, t0, target, stop, n), tape, t0, target, stop, n)
  {
    HighMeaning(tape, t0, target, stop, n);
    LowMeaning(tape, t0, target, stop, n);
    LevelMeaning(tape, t0, target, stop, n);
  }

  // ----- what the path says -----

  function Mirror(path: Path): Path {
    Path(1.0 - path.low, path.lowTs, 1.0 - path.high, path.highTs, path.stop, path.target)
  }

  lemma ExtendMirrored(path: Path, p: Print, t0: int, target: real, stop: real)
    ensures Extend(Mirror(path), p.(ours := !p.ours), t0, 1.0 - stop, 1.0 - target)
      == Mirror(Extend(path, p, t0, target, stop))
  {
  }

  /** Exchanging the two tokens turns the path upside down: highs become lows and the target becomes the stop. */
  lemma {:induction false} PathIsMirrored(tape: seq<Print>, t0: int, target: real, stop: real, n: nat)
    requires n <= |tape|
    ensures PathOf(Flipped(tape), t0, 1.0 - stop, 1.0 - target, n) == Mirror(PathOf(tape, t0, target, stop, n))
  {
    if n > 0 {
      PathIsMirrored(tape, t0, target, stop, n - 1);
      ExtendMirrored(PathOf(tape, t0, target, stop, n - 1), tape[n - 1], t0, target, stop);
    }
  }

  /** For prices a token can have, a level is touched exactly when the extreme reaches it, and no later than it. */
  lemma LevelsTouchedExactly(tape: seq<Print>, t0: int, target: real, stop: real)
    requires Sorted(tape) && forall i :: 0 <= i < |tape| ==> 0.0 <= tape[i].price <= 1.0
    ensures var path := PathOf(tape, t0, target, stop, |tape|);
      && (path.target.Some? <==> path.highTs.Some? && path.high >= target)
      && (path.stop.Some? <==> path.lowTs.Some? && path.low <= stop)
      && (path.target.Some? ==> path.target.value <= path.highTs.value)
      && (path.stop.Some? ==> path.stop.value <= path.lowTs.value)
  {
    PathMeaning(tape, t0, target, stop, |tape|);
  }

  /** The path that starts at the fill of a bid begins at or below that bid. */
  lemma FilledPathStartsAtBid(o: Order, tape: seq<Print>, q: real, target: real, stop: real)
    requires o.bid && ReachTime(o, tape, q).Some?
    ensures var path := PathOf(tape, ReachTime(o, tape, q).value, target, stop, |tape|);
      path.low <= o.price + EPSILON && (stop >= o.price + EPSILON ==> path.stop.Some?)
  {
    var i := FirstReach(o, tape, q, |tape|).value;
    assert PriceOnOurs(tape[i]) <= o.price + EPSILON;
    PathMeaning(tape, tape[i].ts, target, stop, |tape|);
  }
}
