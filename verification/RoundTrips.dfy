/** Matching ledger entries to the trades that closed them, one to one. */
module RoundTrips {
  import opened Wrappers

  datatype LedgerEntry = LedgerEntry(id: int, ts: int, market: string, side: string, price: real, shares: real)

  datatype LedgerTrade = LedgerTrade(id: int, ts: int, market: string, side: string, entryPrice: real, exitPrice: real,
                                     shares: real, pnl: real)

  datatype RoundTrip = RoundTrip(entry: LedgerEntry, shares: real, trade: Option<LedgerTrade>)

  function Abs(x: real): real { if x < 0.0 then -x else x }

  /** Same market and side, closed at or after the entry, at a loosely matching entry price. */
  predicate Eligible(e: LedgerEntry, t: LedgerTrade) {
    t.market == e.market && t.side == e.side && t.ts >= e.ts && Abs(t.entryPrice - e.price) <= 0.02
  }

  predicate Usable(e: LedgerEntry, t: LedgerTrade, used: set<int>) {
    Eligible(e, t) && t.id !in used
  }

  /** Among the first `n` trades, the earliest to close of those still usable; of several, the first listed. */
  ghost predicate IsEarliest(e: LedgerEntry, trades: seq<LedgerTrade>, n: nat, used: set<int>,
                             best: Option<LedgerTrade>)
    requires n <= |trades|
  {
    match best
    case None => forall j: nat :: j < n ==> !Usable(e, trades[j], used)
    case Some(t) =>
      exists i: nat :: i < n && trades[i] == t && Usable(e, t, used)
        && (forall j: nat :: j < n && Usable(e, trades[j], used) ==> t.ts <= trades[j].ts)
        && (forall j: nat :: j < i && Usable(e, trades[j], used) ==> t.ts < trades[j].ts)
  }

  method EarliestUsable(e: LedgerEntry, trades: seq<LedgerTrade>, used: set<int>) returns (best: Option<LedgerTrade>)
    ensures IsEarliest(e, trades, |trades|, used, best)
  {
    best := None;
    for i := 0 to |trades|
      invariant IsEarliest(e, trades, i, used, best)
    {
      var t := trades[i];
      if t.id in used || t.market != e.market || t.side != e.side { continue; }
      if t.ts < e.ts || Abs(t.entryPrice - e.price) > 0.02 { continue; }
      if best.None? || t.ts < best.value.ts { best := Some(t); }
    }
  }

  /** The trades taken by a list of round trips. */
  function Used(out: seq<RoundTrip>): set<int> {
    set r | r in out && r.trade.Some? :: r.trade.value.id
  }

  /** Every entry in turn gets the earliest trade that none of the entries before it took. */
  ghost predicate Greedy(entries: seq<LedgerEntry>, trades: seq<LedgerTrade>, out: seq<RoundTrip>) {
    && |out| <= |entries|
    && forall k: nat {:trigger out[k]} :: k < |out| ==>
         && out[k].entry == entries[k]
         && IsEarliest(entries[k], trades, |trades|, Used(out[..k]), out[k].trade)
         && out[k].shares == if out[k].trade.Some? then out[k].trade.value.shares else entries[k].shares
  }

  method LoadRoundTrips(entries: seq<LedgerEntry>, trades: seq<LedgerTrade>) returns (out: seq<RoundTrip>)
    ensures |out| == |entries| && Greedy(entries, trades, out)
  {
    var used: set<int> := {};
    out := [];
    for k := 0 to |entries|
      invariant |out| == k && Greedy(entries, trades, out) && used == Used(out)
    {
      var e := entries[k];
      var best := EarliestUsable(e, trades, used);
      var rt := RoundTrip(e, if best.Some? then best.value.shares else e.shares, best);
      if best.Some? { used := used + {best.value.id}; }
      UsedSnoc(out, rt);
      GreedySnoc(entries, trades, out, rt);
      out := out + [rt];
    }
  }

  lemma UsedSnoc(out: seq<RoundTrip>, rt: RoundTrip)
    ensures Used(out + [rt]) == Used(out) + if rt.trade.Some? then {rt.trade.value.id} else {}
  {
    var all := out + [rt];
    assert forall r :: r in all <==> r in out || r == rt;
  }

  lemma GreedySnoc(entries: seq<LedgerEntry>, trades: seq<LedgerTrade>, out: seq<RoundTrip>, rt: RoundTrip)
    requires Greedy(entries, trades, out) && |out| < |entries| && rt.entry == entries[|out|]
    requires IsEarliest(entries[|out|], trades, |trades|, Used(out), rt.trade)
    requires rt.shares == if rt.trade.Some? then rt.trade.value.shares else rt.entry.shares
    ensures Greedy(entries, trades, out + [rt])
  {
    var all := out + [rt];
    forall k: nat {:trigger all[k]} | k < |all|
      ensures all[k].entry == entries[k] && IsEarliest(entries[k], trades, |trades|, Used(all[..k]), all[k].trade)
      ensures all[k].shares == if all[k].trade.Some? then all[k].trade.value.shares else entries[k].shares
    {
      assert all[..k] == out[..k];
      if k == |out| { assert out[..k] == out; }
      else { assert all[k] == out[k]; }
    }
  }

  lemma UsedMember(out: seq<RoundTrip>, i: nat, k: nat)
    requires i < k <= |out| && out[i].trade.Some?
    ensures out[i].trade.value.id in Used(out[..k])
  {
    assert out[..k][i] == out[i] && out[i] in out[..k];
  }

  /** No trade closes two entries, and none closes an entry before it was opened. */
  lemma MatchingIsInjectiveAndCausal(entries: seq<LedgerEntry>, trades: seq<LedgerTrade>, out: seq<RoundTrip>)
    requires Greedy(entries, trades, out)
    ensures forall i: nat, k: nat :: i < k < |out| && out[i].trade.Some? && out[k].trade.Some? ==>
      out[i].trade.value.id != out[k].trade.value.id
    ensures forall k: nat :: k < |out| && out[k].trade.Some? ==>
      var e, t := entries[k], out[k].trade.value;
      && t in trades && t.market == e.market && t.side == e.side && e.ts <= t.ts
      && e.price - 0.02 <= t.entryPrice <= e.price + 0.02
  {
    forall i: nat, k: nat | i < k < |out| && out[i].trade.Some? && out[k].trade.Some?
      ensures out[i].trade.value.id != out[k].trade.value.id
    {
      UsedMember(out, i, k);
      assert IsEarliest(entries[k], trades, |trades|, Used(out[..k]), out[k].trade);
    }
  }

  /** The matching is maximal: a trade that is still free at the end is eligible for no unmatched entry. And each
      entry has the earliest closing trade of all that were free when its turn came, in particular of all that are
      free at the end. */
  lemma MatchingIsMaximal(entries: seq<LedgerEntry>, trades: seq<LedgerTrade>, out: seq<RoundTrip>, k: nat,
                          t: LedgerTrade)
    requires Greedy(entries, trades, out) && k < |out|
    requires t in trades && (forall r :: r in out && r.trade.Some? ==> r.trade.value.id != t.id)
    requires t.market == entries[k].market && t.side == entries[k].side && entries[k].ts <= t.ts
    requires entries[k].price - 0.02 <= t.entryPrice <= entries[k].price + 0.02
    ensures out[k].trade.Some? && out[k].trade.value.ts <= t.ts
  {
    assert forall r :: r in out[..k] ==> r in out;
    assert Used(out[..k]) <= Used(out);
    var j: nat :| j < |trades| && trades[j] == t;
    assert Usable(entries[k], trades[j], Used(out[..k]));
    assert IsEarliest(entries[k], trades, |trades|, Used(out[..k]), out[k].trade);
  }
}
