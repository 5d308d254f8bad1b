/** When matching entries to trades one by one closes as many entries as any matching could. */
module Matching {
  import opened RoundTrips
  import opened Wrappers

  /** For every entry the trade that closes it, if any. */
  type Choice = seq<Option<LedgerTrade>>

  function Closed(m: Choice): nat {
    if m == [] then 0 else (if m[0].Some? then 1 else 0) + Closed(m[1..])
  }

  /** Ids are the primary key of the trades table. */
  ghost predicate DistinctIds(trades: seq<LedgerTrade>) {
    forall a, b :: 0 <= a < b < |trades| ==> trades[a].id != trades[b].id
  }

  /** Any way of closing entries with eligible trades, each used at most once. */
  ghost predicate IsMatching(entries: seq<LedgerEntry>, trades: seq<LedgerTrade>, m: Choice) {
    && |m| == |entries|
    && (forall k :: 0 <= k < |m| && m[k].Some? ==> m[k].value in trades && Eligible(entries[k], m[k].value))
    && (forall i, k :: 0 <= i < k < |m| && m[i].Some? && m[k].Some? ==> m[i].value != m[k].value)
  }

  function Choices(out: seq<RoundTrip>): (m: Choice)
    ensures |m| == |out| && forall k :: 0 <= k < |out| ==> m[k] == out[k].trade
  {
    seq(|out|, k requires 0 <= k < |out| => out[k].trade)
  }

  /** Trade `a` is preferred to trade `b`: it closes earlier, or is listed first among those that close together. */
  predicate Precedes(trades: seq<LedgerTrade>, a: int, b: int)
    requires 0 <= a < |trades| && 0 <= b < |trades|
  {
    trades[a].ts < trades[b].ts || (trades[a].ts == trades[b].ts && a < b)
  }

  /** Whoever can be left without `a` because an entry before took it, although that entry could have had the
      less preferred `b`, can have `b` instead. */
  predicate Yields(entries: seq<LedgerEntry>, trades: seq<LedgerTrade>, i: int, j: int, a: int, b: int)
    requires 0 <= i < |entries| && 0 <= j < |entries| && 0 <= a < |trades| && 0 <= b < |trades|
  {
    Precedes(trades, a, b) && Eligible(entries[i], trades[a]) && Eligible(entries[i], trades[b]) ==>
      (Eligible(entries[j], trades[a]) ==> Eligible(entries[j], trades[b]))
  }

  predicate Exchangeable(entries: seq<LedgerEntry>, trades: seq<LedgerTrade>) {
    forall i, j, a, b :: 0 <= i < j < |entries| && 0 <= a < |trades| && 0 <= b < |trades| ==>
      Yields(entries, trades, i, j, a, b)
  }

  // ----- the exchange -----

  lemma {:induction false} ClosedUpdate(m: Choice, k: nat, x: Option<LedgerTrade>)
    requires k < |m|
    ensures Closed(m[k := x]) == Closed(m) - (if m[k].Some? then 1 else 0) + (if x.Some? then 1 else 0)
  {
    if k == 0 {
      assert m[k := x][1..] == m[1..];
    } else {
      assert m[k := x][1..] == m[1..][k - 1 := x];
      ClosedUpdate(m[1..], k - 1, x);
    }
  }

  ghost predicate Agrees(m: Choice, out: seq<RoundTrip>, k: nat)
    requires |m| == |out|
  {
    forall i :: 0 <= i < k && i < |out| ==> m[i] == out[i].trade
  }

  lemma IdsIdentify(trades: seq<LedgerTrade>, t: LedgerTrade, u: LedgerTrade)
    requires DistinctIds(trades) && t in trades && u in trades
    ensures t.id == u.id <==> t == u
  {
    var a, b :| 0 <= a < |trades| && 0 <= b < |trades| && trades[a] == t && trades[b] == u;
    assert a < b || a == b || b < a;
  }

  lemma UsedIs(out: seq<RoundTrip>, k: nat, id: int)
    requires k <= |out|
    ensures id in Used(out[..k]) <==> exists i :: 0 <= i < k && out[i].trade.Some? && out[i].trade.value.id == id
  {
    var head := out[..k];
    if id in Used(head) {
      var r :| r in head && r.trade.Some? && r.trade.value.id == id;
      var i :| 0 <= i < |head| && head[i] == r;
      assert out[i] == r;
    }
    if i :| 0 <= i < k && out[i].trade.Some? && out[i].trade.value.id == id { assert head[i] in head; }
  }

  /** What a matching that agrees with the greedy one so far gives to the next entry was still free for it. */
  lemma StillFree(entries: seq<LedgerEntry>, trades: seq<LedgerTrade>, out: seq<RoundTrip>, m: Choice, k: nat)
    requires DistinctIds(trades) && Greedy(entries, trades, out) && k < |out| == |entries|
    requires IsMatching(entries, trades, m) && Agrees(m, out, k) && m[k].Some?
    ensures Usable(entries[k], m[k].value, Used(out[..k]))
  {
    UsedIs(out, k, m[k].value.id);
    forall i | 0 <= i < k && out[i].trade.Some? ensures out[i].trade.value.id != m[k].value.id {
      assert m[i] == out[i].trade;
      IdsIdentify(trades, m[i].value, m[k].value);
    }
  }

  lemma FreeForGreedy(entries: seq<LedgerEntry>, trades: seq<LedgerTrade>, out: seq<RoundTrip>, k: nat) returns (a: nat)
    requires Greedy(entries, trades, out) && k < |out| && out[k].trade.Some?
    ensures a < |trades| && trades[a] == out[k].trade.value && Usable(entries[k], trades[a], Used(out[..k]))
    ensures forall b: nat :: b < |trades| && b != a && Usable(entries[k], trades[b], Used(out[..k])) ==>
      Precedes(trades, a, b)
  {
    assert IsEarliest(entries[k], trades, |trades|, Used(out[..k]), out[k].trade);
    a :| a < |trades| && trades[a] == out[k].trade.value && Usable(entries[k], trades[a], Used(out[..k]))
      && (forall j: nat :: j < |trades| && Usable(entries[k], trades[j], Used(out[..k])) ==>
        trades[a].ts <= trades[j].ts)
      && (forall j: nat :: j < a && Usable(entries[k], trades[j], Used(out[..k])) ==> trades[a].ts < trades[j].ts);
  }

  /** The trade that the greedy matching gives to entry `k` is not used by any entry before it. */
  lemma NotUsedBefore(entries: seq<LedgerEntry>, trades: seq<LedgerTrade>, out: seq<RoundTrip>, m: Choice, k: nat,
                      t: LedgerTrade)
    requires k < |out| == |entries| && IsMatching(entries, trades, m) && Agrees(m, out, k) && t.id !in Used(out[..k])
    ensures forall i :: 0 <= i < k ==> m[i] != Some(t)
  {
    UsedIs(out, k, t.id);
  }

  /** Give entry `k` its greedy trade; whoever had it gets what entry `k` had. */
  lemma {:induction false} Exchange(entries: seq<LedgerEntry>, trades: seq<LedgerTrade>, out: seq<RoundTrip>,
                                    m: Choice, k: nat)
    returns (better: Choice)
    requires DistinctIds(trades) && Exchangeable(entries, trades) && Greedy(entries, trades, out)
    requires k < |out| == |entries| && IsMatching(entries, trades, m) && Agrees(m, out, k)
    ensures IsMatching(entries, trades, better) && Agrees(better, out, k + 1) && Closed(better) >= Closed(m)
  {
    if m[k] == out[k].trade { return m; }
    GreedyTakes(entries, trades, out, m, k);
    var a := FreeForGreedy(entries, trades, out, k);
    var t := trades[a];
    NotUsedBefore(entries, trades, out, m, k, t);
    ClosedUpdate(m, k, Some(t));
    if j :| k < j < |m| && m[j] == Some(t) {
      CanSwap(entries, trades, out, m, k, j, a);
      better := m[k := Some(t)][j := m[k]];
      ClosedUpdate(m[k := Some(t)], j, m[k]);
    } else {
      better := m[k := Some(t)];
    }
  }

  /** An entry that some such matching closes is closed by the greedy one. */
  lemma GreedyTakes(entries: seq<LedgerEntry>, trades: seq<LedgerTrade>, out: seq<RoundTrip>, m: Choice, k: nat)
    requires DistinctIds(trades) && Greedy(entries, trades, out) && k < |out| == |entries|
    requires IsMatching(entries, trades, m) && Agrees(m, out, k) && m[k] != out[k].trade
    ensures out[k].trade.Some?
  {
    if m[k].Some? {
      StillFree(entries, trades, out, m, k);
      var b: nat :| b < |trades| && trades[b] == m[k].value;
      assert IsEarliest(entries[k], trades, |trades|, Used(out[..k]), out[k].trade);
    }
  }

  lemma CanSwap(entries: seq<LedgerEntry>, trades: seq<LedgerTrade>, out: seq<RoundTrip>, m: Choice, k: nat, j: nat,
                a: nat)
    requires DistinctIds(trades) && Exchangeable(entries, trades) && k < j < |out| == |entries| && a < |trades|
    requires IsMatching(entries, trades, m) && Agrees(m, out, k) && Greedy(entries, trades, out)
      && m[j] == Some(trades[a])
    requires Eligible(entries[k], trades[a])
    requires forall b: nat :: b < |trades| && b != a && Usable(entries[k], trades[b], Used(out[..k])) ==>
      Precedes(trades, a, b)
    ensures m[k].Some? ==> Eligible(entries[j], m[k].value)
  {
    if m[k].Some? {
      StillFree(entries, trades, out, m, k);
      var b: nat :| b < |trades| && trades[b] == m[k].value;
      assert Yields(entries, trades, k, j, a, b);
    }
  }

  lemma {:induction false} ExchangeAll(entries: seq<LedgerEntry>, trades: seq<LedgerTrade>, out: seq<RoundTrip>,
                                       m: Choice, k: nat)
    requires DistinctIds(trades) && Exchangeable(entries, trades) && Greedy(entries, trades, out)
    requires k <= |out| == |entries| && IsMatching(entries, trades, m) && Agrees(m, out, k)
    ensures Closed(m) <= Closed(Choices(out))
    decreases |out| - k
  {
    if k == |out| {
      assert m == Choices(out);
    } else {
      var better := Exchange(entries, trades, out, m, k);
      ExchangeAll(entries, trades, out, better, k + 1);
    }
  }

  /** Greedy matching closes as many entries as any matching can. */
  ghost predicate Maximum(entries: seq<LedgerEntry>, trades: seq<LedgerTrade>) {
    forall out, m {:trigger Greedy(entries, trades, out), IsMatching(entries, trades, m)} ::
      |out| == |entries| && Greedy(entries, trades, out) && IsMatching(entries, trades, m) ==>
        Closed(m) <= Closed(Choices(out))
  }

  lemma ExchangeableIsMaximum(entries: seq<LedgerEntry>, trades: seq<LedgerTrade>)
    requires DistinctIds(trades) && Exchangeable(entries, trades)
    ensures Maximum(entries, trades)
  {
    forall out, m {:trigger Greedy(entries, trades, out), IsMatching(entries, trades, m)}
      | |out| == |entries| && Greedy(entries, trades, out) && IsMatching(entries, trades, m)
      ensures Closed(m) <= Closed(Choices(out))
    {
      ExchangeAll(entries, trades, out, m, 0);
    }
  }

  // ----- the condition on prices -----

  /** Within a market and side the loose price check never decides. */
  predicate PricesNeverDecide(entries: seq<LedgerEntry>, trades: seq<LedgerTrade>) {
    forall e, t :: e in entries && t in trades && t.market == e.market && t.side == e.side ==>
      Abs(t.entryPrice - e.price) <= 0.02
  }

  /** If all prices within a market and side are close, greedy matching is maximum, in whatever order the entries
      are listed. */
  lemma ClosePricesAreMaximum(entries: seq<LedgerEntry>, trades: seq<LedgerTrade>)
    requires DistinctIds(trades) && PricesNeverDecide(entries, trades)
    ensures Exchangeable(entries, trades) && Maximum(entries, trades)
  {
    ExchangeableIsMaximum(entries, trades);
  }

  // ----- the converse -----

  ghost predicate Picks(idx: seq<int>, n: nat) {
    (forall p :: 0 <= p < |idx| ==> 0 <= idx[p] < n) && forall p, q :: 0 <= p < q < |idx| ==> idx[p] < idx[q]
  }

  function Picked<T>(s: seq<T>, idx: seq<int>): (r: seq<T>)
    requires forall p :: 0 <= p < |idx| ==> 0 <= idx[p] < |s|
    ensures |r| == |idx| && forall p :: 0 <= p < |idx| ==> r[p] == s[idx[p]]
  {
    seq(|idx|, p requires 0 <= p < |idx| => s[idx[p]])
  }

  /** Greedy matching is maximum on every part of the ledger: on any selection of its entries and of its trades. */
  ghost predicate MaximumOnEveryPart(entries: seq<LedgerEntry>, trades: seq<LedgerTrade>) {
    forall es, ts :: Picks(es, |entries|) && Picks(ts, |trades|) ==> Maximum(Picked(entries, es), Picked(trades, ts))
  }

  lemma PartIsExchangeable(entries: seq<LedgerEntry>, trades: seq<LedgerTrade>, es: seq<int>, ts: seq<int>)
    requires DistinctIds(trades) && Exchangeable(entries, trades) && Picks(es, |entries|) && Picks(ts, |trades|)
    ensures DistinctIds(Picked(trades, ts)) && Exchangeable(Picked(entries, es), Picked(trades, ts))
  {
    var e, t := Picked(entries, es), Picked(trades, ts);
    forall i, j, a, b | 0 <= i < j < |e| && 0 <= a < |t| && 0 <= b < |t| ensures Yields(e, t, i, j, a, b) {
      assert Yields(entries, trades, es[i], es[j], ts[a], ts[b]);
    }
  }

  /** Two entries and two trades on which greedy matching closes one entry where two can be closed. */
  lemma PairIsNotMaximum(first: LedgerEntry, second: LedgerEntry, trades: seq<LedgerTrade>, a: int, b: int)
    requires |trades| == 2 && DistinctIds(trades) && {a, b} == {0, 1} && Precedes(trades, a, b)
    requires Eligible(first, trades[a]) && Eligible(first, trades[b])
    requires Eligible(second, trades[a]) && !Eligible(second, trades[b])
    ensures !Maximum([first, second], trades)
  {
    var out := GreedyPair(first, second, trades, a, b);
    var m: Choice := [Some(trades[b]), Some(trades[a])];
    assert IsMatching([first, second], trades, m);
    ClosedPair(m);
    ClosedPair(Choices(out));
  }

  lemma ClosedPair(m: Choice)
    requires |m| == 2
    ensures Closed(m) == (if m[0].Some? then 1 else 0) + (if m[1].Some? then 1 else 0)
  {
    var rest := m[1..];
    assert rest[1..] == [] && rest[0] == m[1];
    assert Closed(rest) == if m[1].Some? then 1 else 0;
  }

  lemma GreedyPair(first: LedgerEntry, second: LedgerEntry, trades: seq<LedgerTrade>, a: int, b: int)
    returns (out: seq<RoundTrip>)
    requires |trades| == 2 && DistinctIds(trades) && {a, b} == {0, 1} && Precedes(trades, a, b)
    requires Eligible(first, trades[a]) && Eligible(first, trades[b])
    requires Eligible(second, trades[a]) && !Eligible(second, trades[b])
    ensures Greedy([first, second], trades, out) && |out| == 2 && out[0].trade == Some(trades[a]) && out[1].trade.None?
  {
    var entries := [first, second];
    var r0, r1 := RoundTrip(first, trades[a].shares, Some(trades[a])), RoundTrip(second, second.shares, None);
    assert Usable(first, trades[a], {});
    assert IsEarliest(first, trades, 2, {}, Some(trades[a]));
    GreedySnoc(entries, trades, [], r0);
    assert [] + [r0] == [r0];
    UsedSnoc([], r0);
    assert Used([r0]) == {trades[a].id};
    assert IsEarliest(second, trades, 2, Used([r0]), None);
    GreedySnoc(entries, trades, [r0], r1);
    out := [r0] + [r1];
  }

  /** The price check can make it so: the first entry takes the only trade the second one could have had. */
  lemma MatchingIsNotMaximum() returns (entries: seq<LedgerEntry>, trades: seq<LedgerTrade>)
    ensures |entries| == |trades| == 2 && DistinctIds(trades) && !Maximum(entries, trades)
    ensures forall e, t :: e in entries && t in trades ==> e.market == t.market && e.side == t.side && e.ts <= t.ts
  {
    var e0, e1 := LedgerEntry(1, 0, "m", "yes", 0.50, 1.0), LedgerEntry(2, 0, "m", "yes", 0.53, 1.0);
    var t0, t1 := LedgerTrade(1, 10, "m", "yes", 0.515, 0.6, 1.0, 0.0),
      LedgerTrade(2, 20, "m", "yes", 0.50, 0.6, 1.0, 0.0);
    entries, trades := [e0, e1], [t0, t1];
    PairIsNotMaximum(e0, e1, trades, 0, 1);
  }

  lemma NotExchangeableFails(entries: seq<LedgerEntry>, trades: seq<LedgerTrade>, i: int, j: int, a: int, b: int)
    requires DistinctIds(trades) && 0 <= i < j < |entries| && 0 <= a < |trades| && 0 <= b < |trades|
    requires !Yields(entries, trades, i, j, a, b)
    ensures !MaximumOnEveryPart(entries, trades)
  {
    var es, ts := [i, j], if a < b then [a, b] else [b, a];
    var e, t := Picked(entries, es), Picked(trades, ts);
    assert Picks(es, |entries|) && Picks(ts, |trades|);
    assert e == [entries[i], entries[j]];
    PairIsNotMaximum(entries[i], entries[j], t, if a < b then 0 else 1, if a < b then 1 else 0);
  }

  /** Greedy matching is maximum on every part of a ledger exactly when the ledger is exchangeable. */
  lemma MaximumExactly(entries: seq<LedgerEntry>, trades: seq<LedgerTrade>)
    requires DistinctIds(trades)
    ensures MaximumOnEveryPart(entries, trades) <==> Exchangeable(entries, trades)
  {
    if Exchangeable(entries, trades) {
      forall es, ts | Picks(es, |entries|) && Picks(ts, |trades|)
        ensures Maximum(Picked(entries, es), Picked(trades, ts))
      {
        PartIsExchangeable(entries, trades, es, ts);
        ExchangeableIsMaximum(Picked(entries, es), Picked(trades, ts));
      }
    } else {
      var i, j, a, b :| 0 <= i < j < |entries| && 0 <= a < |trades| && 0 <= b < |trades|
        && !Yields(entries, trades, i, j, a, b);
      NotExchangeableFails(entries, trades, i, j, a, b);
    }
  }

  lemma {:induction false} ClosedAtMost(m: Choice)
    ensures Closed(m) <= |m| && (Closed(m) == |m| <==> forall k :: 0 <= k < |m| ==> m[k].Some?)
  {
    if m != [] {
      ClosedAtMost(m[1..]);
      assert forall k :: 1 <= k < |m| ==> m[k] == m[1..][k - 1];
      assert forall k :: 0 <= k < |m| - 1 ==> m[1..][k] == m[k + 1];
    }
  }

  /** On one ledger alone the converse fails: here the second entry cannot take the place of the first, but there is
      a third trade for it. */
  lemma MaximumWithoutExchange() returns (entries: seq<LedgerEntry>, trades: seq<LedgerTrade>)
    ensures DistinctIds(trades) && Maximum(entries, trades) && !Exchangeable(entries, trades)
  {
    var e0, e1 := LedgerEntry(1, 0, "m", "yes", 0.50, 1.0), LedgerEntry(2, 0, "m", "yes", 0.53, 1.0);
    var t0, t1 := LedgerTrade(1, 10, "m", "yes", 0.515, 0.6, 1.0, 0.0),
      LedgerTrade(2, 20, "m", "yes", 0.50, 0.6, 1.0, 0.0);
    var t2 := LedgerTrade(3, 30, "m", "yes", 0.53, 0.6, 1.0, 0.0);
    entries, trades := [e0, e1], [t0, t1, t2];
    assert !Yields(entries, trades, 0, 1, 0, 1);
    BothAreClosed(entries, trades);
  }

  lemma BothAreClosed(entries: seq<LedgerEntry>, trades: seq<LedgerTrade>)
    requires |entries| == 2 && |trades| == 3 && DistinctIds(trades)
    requires Eligible(entries[0], trades[0]) && Eligible(entries[1], trades[2]) && !Eligible(entries[0], trades[2])
    ensures Maximum(entries, trades)
  {
    forall out, m {:trigger Greedy(entries, trades, out), IsMatching(entries, trades, m)}
      | |out| == |entries| && Greedy(entries, trades, out) && IsMatching(entries, trades, m)
      ensures Closed(m) <= Closed(Choices(out))
    {
      FirstIsClosed(entries, trades, out);
      SecondIsClosed(entries, trades, out);
      ClosedAtMost(m);
      ClosedAtMost(Choices(out));
    }
  }

  lemma FirstIsClosed(entries: seq<LedgerEntry>, trades: seq<LedgerTrade>, out: seq<RoundTrip>)
    requires |entries| == |out| == 2 && |trades| == 3 && Greedy(entries, trades, out) && Eligible(entries[0], trades[0])
    ensures out[0].trade.Some?
  {
    UsedIs(out, 0, trades[0].id);
    assert IsEarliest(entries[0], trades, 3, Used(out[..0]), out[0].trade);
    assert Usable(entries[0], trades[0], Used(out[..0]));
  }

  lemma SecondIsClosed(entries: seq<LedgerEntry>, trades: seq<LedgerTrade>, out: seq<RoundTrip>)
    requires |entries| == |out| == 2 && |trades| == 3 && DistinctIds(trades) && Greedy(entries, trades, out)
    requires Eligible(entries[1], trades[2]) && !Eligible(entries[0], trades[2]) && out[0].trade.Some?
    ensures out[1].trade.Some?
  {
    var a := FreeForGreedy(entries, trades, out, 0);
    IdsIdentify(trades, trades[a], trades[2]);
    UsedIs(out, 1, trades[2].id);
    assert IsEarliest(entries[1], trades, 3, Used(out[..1]), out[1].trade);
    assert Usable(entries[1], trades[2], Used(out[..1]));
  }
}
