/** Pairing the entries, exits and PnL lines of a session log into trades. */
module SessionParser {
  import opened Sorting
  import opened Wrappers

  datatype Key = Key(asset: string, strategy: string)
  datatype Heartbeat = Heartbeat(ts: int, askSum: real, bidSum: real, binance: real, obiY: real, obiN: real)
  datatype Entry = Entry(ts: int, key: Key, market: string, price: real, shares: real)
  datatype Exit = Exit(ts: int, key: Key, market: string, shares: real, bid: real, reason: string)
  datatype Pnl = Pnl(ts: int, key: Key, value: real)

  /** The heartbeat a time is judged against, and how old it was. */
  datatype Context = Context(hb: Heartbeat, age: int)

  datatype Trade = Trade(key: Key, market: string, entryTs: Option<int>, exitTs: int, hold: Option<int>,
                         entryPrice: Option<real>, exitBid: real, shares: real, pnl: real, reason: string,
                         entryContext: Option<Context>, exitContext: Option<Context>)

  // ----- nearest_hb_before -----

  /** Python's `bisect.bisect_right` on the heartbeat times. */
  function BisectRight(hbs: seq<Heartbeat>, ts: int, lo: nat, hi: nat): (i: nat)
    requires lo <= hi <= |hbs|
    ensures lo <= i <= hi
    decreases hi - lo
  {
    if lo == hi then lo
    else
      var mid := (lo + hi) / 2;
      if ts < hbs[mid].ts then BisectRight(hbs, ts, lo, mid) else BisectRight(hbs, ts, mid + 1, hi)
  }

  function NearestBefore(ts: int, hbs: seq<Heartbeat>): Option<Context> {
    var i := BisectRight(hbs, ts, 0, |hbs|);
    if i == 0 then None else Some(Context(hbs[i - 1], ts - hbs[i - 1].ts))
  }

  function HeartbeatTs(h: Heartbeat): int { h.ts }

  lemma {:induction false} BisectSplits(hbs: seq<Heartbeat>, ts: int, lo: nat, hi: nat)
    requires SortedBy(hbs, HeartbeatTs) && lo <= hi <= |hbs|
    requires forall j :: 0 <= j < lo ==> hbs[j].ts <= ts
    requires forall j :: hi <= j < |hbs| ==> ts < hbs[j].ts
    ensures var i := BisectRight(hbs, ts, lo, hi);
      (forall j :: 0 <= j < i ==> hbs[j].ts <= ts) && (forall j :: i <= j < |hbs| ==> ts < hbs[j].ts)
    decreases hi - lo
  {
    if lo < hi {
      var mid := (lo + hi) / 2;
      forall j | 0 <= j < mid ensures hbs[j].ts <= hbs[mid].ts {
        assert HeartbeatTs(hbs[j]) <= HeartbeatTs(hbs[mid]);
      }
      forall j | mid < j < |hbs| ensures hbs[mid].ts <= hbs[j].ts {
        assert HeartbeatTs(hbs[mid]) <= HeartbeatTs(hbs[j]);
      }
      if ts < hbs[mid].ts {
        BisectSplits(hbs, ts, lo, mid);
      } else {
        BisectSplits(hbs, ts, mid + 1, hi);
      }
    }
  }

  /** On heartbeats in order of time, the context is the last heartbeat at or before the time, never a later one. */
  lemma NearestIsLatest(ts: int, hbs: seq<Heartbeat>)
    requires SortedBy(hbs, HeartbeatTs)
    ensures NearestBefore(ts, hbs).None? <==> forall j :: 0 <= j < |hbs| ==> ts < hbs[j].ts
    ensures NearestBefore(ts, hbs).Some? ==>
      exists i :: 0 <= i < |hbs| && hbs[i] == NearestBefore(ts, hbs).value.hb && hbs[i].ts <= ts
        && NearestBefore(ts, hbs).value.age == ts - hbs[i].ts
        && forall j :: i < j < |hbs| ==> ts < hbs[j].ts
  {
    BisectSplits(hbs, ts, 0, |hbs|);
    var i := BisectRight(hbs, ts, 0, |hbs|);
    if i > 0 { assert hbs[i - 1].ts <= ts; }
  }

  // ----- correlate_trades -----

  function Get<T>(m: map<Key, seq<T>>, k: Key): seq<T> {
    if k in m then m[k] else []
  }

  function EntryTs(e: Entry): int { e.ts }
  function ExitTs(x: Exit): int { x.ts }
  function PnlTs(p: Pnl): int { p.ts }
  function EntryOf(k: Key): Entry -> bool { (e: Entry) => e.key == k }
  function ExitOf(k: Key): Exit -> bool { (x: Exit) => x.key == k }
  function PnlOf(k: Key): Pnl -> bool { (p: Pnl) => p.key == k }
  function TradeFor(k: Key): Trade -> bool { (t: Trade) => t.key == k }

  datatype Closed = Closed(exit: Exit, entry: Option<Entry>)

  function Nth(es: seq<Entry>, i: nat): Option<Entry> {
    if i < |es| then Some(es[i]) else None
  }

  /** The i-th exit with the i-th entry, if there is one. */
  function Pairs(xs: seq<Exit>, es: seq<Entry>): (r: seq<Closed>)
    ensures |r| == |xs| && forall i :: 0 <= i < |xs| ==> r[i] == Closed(xs[i], Nth(es, i))
  {
    seq(|xs|, i requires 0 <= i < |xs| => Closed(xs[i], Nth(es, i)))
  }

  function TradeOf(c: Closed, p: Pnl, heartbeats: map<string, seq<Heartbeat>>): Trade {
    var hbs := if p.key.asset in heartbeats then heartbeats[p.key.asset] else [];
    var x := c.exit;
    match c.entry
    case Some(e) =>
      Trade(p.key, x.market, Some(e.ts), x.ts, Some(x.ts - e.ts), Some(e.price), x.bid, e.shares, p.value, x.reason,
            NearestBefore(e.ts, hbs), NearestBefore(x.ts, hbs))
    case None =>
      Trade(p.key, x.market, None, x.ts, None, None, x.bid, x.shares, p.value, x.reason,
            None, NearestBefore(x.ts, hbs))
  }

  function Min(a: nat, b: nat): nat { if a < b then a else b }

  /** How a closed position and its PnL line become a trade. */
  type Maker = (Closed, Pnl) -> Trade

  function TradeMaker(heartbeats: map<string, seq<Heartbeat>>): Maker {
    (c: Closed, p: Pnl) => TradeOf(c, p, heartbeats)
  }

  /** The trade a PnL line completes, by counting alone: the n-th line of a key completes the n-th exit of it. */
  function TradeAt(closed: seq<Closed>, p: Pnl, n: nat, make: Maker): seq<Trade> {
    if n < |closed| then [make(closed[n], p)] else []
  }

  /** The trades completed by the first `i` PnL lines. */
  function Completed(closed: Key -> seq<Closed>, ps: seq<Pnl>, i: nat, make: Maker): seq<Trade>
    requires i <= |ps|
  {
    if i == 0 then []
    else
      var p := ps[i - 1];
      Completed(closed, ps, i - 1, make) + TradeAt(closed(p.key), p, |Seen(ps, i - 1, PnlOf(p.key))|, make)
  }

  method QueueEntries(sorted: seq<Entry>) returns (queues: map<Key, seq<Entry>>)
    ensures forall k :: Get(queues, k) == Filter(sorted, EntryOf(k))
  {
    queues := map[];
    for i := 0 to |sorted|
      invariant forall k :: Get(queues, k) == Seen(sorted, i, EntryOf(k))
    {
      var e := sorted[i];
      queues := queues[e.key := Get(queues, e.key) + [e]];
    }
    forall k { SeenAll(sorted, EntryOf(k)); }
  }

  /** What is left of a queue after `n` pops; popping an empty queue does nothing. */
  function After<T>(s: seq<T>, n: nat): seq<T> { s[Min(n, |s|)..] }

  lemma Pop<T>(s: seq<T>, n: nat)
    ensures After(s, n) == [] <==> |s| <= n
    ensures n < |s| ==> After(s, n)[0] == s[n] && After(s, n)[1..] == After(s, n + 1)
    ensures |s| <= n ==> After(s, n + 1) == []
  {
  }

  lemma PairsSnoc(xs: seq<Exit>, es: seq<Entry>, x: Exit)
    ensures Pairs(xs + [x], es) == Pairs(xs, es) + [Closed(x, Nth(es, |xs|))]
  {
  }

  ghost predicate ExitsQueued(sorted: seq<Exit>, i: nat, queues: map<Key, seq<Entry>>, entryQ: map<Key, seq<Entry>>,
                              pending: map<Key, seq<Closed>>, k: Key)
    requires i <= |sorted|
  {
    && Get(pending, k) == Pairs(Seen(sorted, i, ExitOf(k)), Get(queues, k))
    && Get(entryQ, k) == After(Get(queues, k), |Seen(sorted, i, ExitOf(k))|)
  }

  /** An exit takes what its entry queue has in front. */
  lemma ExitTakesFront(es: seq<Entry>, seen: seq<Exit>, x: Exit, q: seq<Entry>)
    requires q == After(es, |seen|)
    ensures After(es, |seen| + 1) == if q == [] then [] else q[1..]
    ensures Pairs(seen + [x], es) == Pairs(seen, es) + [Closed(x, if q == [] then None else Some(q[0]))]
  {
    Pop(es, |seen|);
    PairsSnoc(seen, es, x);
  }

  ghost predicate AllQueued(sorted: seq<Exit>, i: nat, queues: map<Key, seq<Entry>>, entryQ: map<Key, seq<Entry>>,
                            pending: map<Key, seq<Closed>>)
    requires i <= |sorted|
  {
    forall k :: ExitsQueued(sorted, i, queues, entryQ, pending, k)
  }

  lemma ExitFrame(sorted: seq<Exit>, i: nat, queues: map<Key, seq<Entry>>, entryQ: map<Key, seq<Entry>>,
                  rest: map<Key, seq<Entry>>, pending: map<Key, seq<Closed>>, next: map<Key, seq<Closed>>,
                  entry: Option<Entry>)
    requires i < |sorted| && AllQueued(sorted, i, queues, entryQ, pending)
    requires forall k :: k != sorted[i].key ==> Get(rest, k) == Get(entryQ, k) && Get(next, k) == Get(pending, k)
    requires var q := Get(entryQ, sorted[i].key);
      && Get(rest, sorted[i].key) == (if q == [] then [] else q[1..])
      && entry == (if q == [] then None else Some(q[0]))
      && Get(next, sorted[i].key) == Get(pending, sorted[i].key) + [Closed(sorted[i], entry)]
    ensures AllQueued(sorted, i + 1, queues, rest, next)
  {
    var n := i + 1;
    forall k ensures ExitsQueued(sorted, n, queues, rest, next, k) {
      assert ExitsQueued(sorted, i, queues, entryQ, pending, k);
      SeenNext(sorted, i, ExitOf(k));
      if k == sorted[i].key {
        ExitTakesFront(Get(queues, k), Seen(sorted, i, ExitOf(k)), sorted[i], Get(entryQ, k));
      }
    }
  }

  method PopEntry(entryQ: map<Key, seq<Entry>>, key: Key) returns (rest: map<Key, seq<Entry>>, entry: Option<Entry>)
    ensures forall k :: k != key ==> Get(rest, k) == Get(entryQ, k)
    ensures var q := Get(entryQ, key);
      Get(rest, key) == (if q == [] then [] else q[1..]) && entry == if q == [] then None else Some(q[0])
  {
    if Get(entryQ, key) == [] { return entryQ, None; }
    rest, entry := entryQ[key := entryQ[key][1..]], Some(entryQ[key][0]);
  }

  /** Every exit takes the front of its entry queue, if there is one. */
  method QueueExits(sorted: seq<Exit>, queues: map<Key, seq<Entry>>) returns (pending: map<Key, seq<Closed>>)
    ensures forall k :: Get(pending, k) == Pairs(Filter(sorted, ExitOf(k)), Get(queues, k))
  {
    var entryQ := queues;
    pending := map[];
    for i := 0 to |sorted|
      invariant AllQueued(sorted, i, queues, entryQ, pending)
    {
      var rest, entry := PopEntry(entryQ, sorted[i].key);
      var next := pending[sorted[i].key := Get(pending, sorted[i].key) + [Closed(sorted[i], entry)]];
      ExitFrame(sorted, i, queues, entryQ, rest, pending, next, entry);
      entryQ, pending := rest, next;
    }
    forall k ensures Get(pending, k) == Pairs(Filter(sorted, ExitOf(k)), Get(queues, k)) {
      SeenAll(sorted, ExitOf(k));
      assert ExitsQueued(sorted, |sorted|, queues, entryQ, pending, k);
    }
  }

  ghost predicate PnlsTaken(ps: seq<Pnl>, i: nat, all: map<Key, seq<Closed>>, pending: map<Key, seq<Closed>>, k: Key)
    requires i <= |ps|
  {
    Get(pending, k) == After(Get(all, k), |Seen(ps, i, PnlOf(k))|)
  }

  ghost predicate AllTaken(ps: seq<Pnl>, i: nat, all: map<Key, seq<Closed>>, pending: map<Key, seq<Closed>>)
    requires i <= |ps|
  {
    forall k :: PnlsTaken(ps, i, all, pending, k)
  }

  lemma PnlStep(ps: seq<Pnl>, i: nat, all: map<Key, seq<Closed>>, pending: map<Key, seq<Closed>>, k: Key)
    requires i < |ps| && PnlsTaken(ps, i, all, pending, k)
    ensures if k != ps[i].key then PnlsTaken(ps, i + 1, all, pending, k)
      else
        var q, n := Get(pending, k), |Seen(ps, i, PnlOf(k))|;
        && After(Get(all, k), |Seen(ps, i + 1, PnlOf(k))|) == (if q == [] then [] else q[1..])
        && (q == [] <==> |Get(all, k)| <= n) && (q != [] ==> q[0] == Get(all, k)[n])
  {
    var seen := Seen(ps, i, PnlOf(k));
    assert Seen(ps, i + 1, PnlOf(k)) == seen + if ps[i].key == k then [ps[i]] else [];
    Pop(Get(all, k), |seen|);
  }

  /** One PnL line against the queue of pending exits of its key. */
  method TakeFront(p: Pnl, pending: map<Key, seq<Closed>>, make: Maker)
    returns (rest: map<Key, seq<Closed>>, t: seq<Trade>)
    ensures forall k :: k != p.key ==> Get(rest, k) == Get(pending, k)
    ensures var q := Get(pending, p.key);
      && Get(rest, p.key) == (if q == [] then [] else q[1..])
      && t == if q == [] then [] else [make(q[0], p)]
  {
    if Get(pending, p.key) == [] { return pending, []; }
    rest := pending[p.key := pending[p.key][1..]];
    t := [make(pending[p.key][0], p)];
  }

  /** Every PnL line completes the front of its queue of pending exits; a line that finds none is dropped. */
  method TakePnls(ps: seq<Pnl>, all: map<Key, seq<Closed>>, make: Maker, ghost closed: Key -> seq<Closed>)
    returns (completed: seq<Trade>)
    requires forall k :: closed(k) == Get(all, k)
    ensures completed == Completed(closed, ps, |ps|, make)
  {
    var pending := all;
    completed := [];
    for i := 0 to |ps|
      invariant completed == Completed(closed, ps, i, make)
      invariant AllTaken(ps, i, all, pending)
    {
      var rest, t := TakeFront(ps[i], pending, make);
      assert completed + t == Completed(closed, ps, i + 1, make) by { FrontIsTrade(ps, i, all, pending, make); }
      PnlFrame(ps, i, all, pending, rest);
      pending, completed := rest, completed + t;
    }
  }

  lemma FrontIsTrade(ps: seq<Pnl>, i: nat, all: map<Key, seq<Closed>>, pending: map<Key, seq<Closed>>, make: Maker)
    requires i < |ps| && AllTaken(ps, i, all, pending)
    ensures var p, q := ps[i], Get(pending, ps[i].key);
      TradeAt(Get(all, p.key), p, |Seen(ps, i, PnlOf(p.key))|, make) == if q == [] then [] else [make(q[0], p)]
  {
    assert PnlsTaken(ps, i, all, pending, ps[i].key);
    PnlStep(ps, i, all, pending, ps[i].key);
  }

  lemma PnlFrame(ps: seq<Pnl>, i: nat, all: map<Key, seq<Closed>>, before: map<Key, seq<Closed>>,
                 after: map<Key, seq<Closed>>)
    requires i < |ps| && AllTaken(ps, i, all, before)
    requires forall k :: k != ps[i].key ==> Get(after, k) == Get(before, k)
    requires var q := Get(before, ps[i].key); Get(after, ps[i].key) == if q == [] then [] else q[1..]
    ensures AllTaken(ps, i + 1, all, after)
  {
    var n := i + 1;
    forall k ensures PnlsTaken(ps, n, all, after, k) {
      PnlStep(ps, i, all, before, k);
    }
  }

  function ClosedOf(xs: seq<Exit>, es: seq<Entry>): Key -> seq<Closed> {
    (k: Key) => Pairs(Filter(xs, ExitOf(k)), Filter(es, EntryOf(k)))
  }

  method CorrelateTrades(entries: seq<Entry>, exits: seq<Exit>, pnls: seq<Pnl>, heartbeats: map<string, seq<Heartbeat>>)
    returns (completed: seq<Trade>)
    ensures completed == Correlated(entries, exits, pnls, heartbeats)
  {
    var es, xs, ps := StableSort(entries, EntryTs), StableSort(exits, ExitTs), StableSort(pnls, PnlTs);
    var queues := QueueEntries(es);
    var pending := QueueExits(xs, queues);
    completed := TakePnls(ps, pending, TradeMaker(heartbeats), ClosedOf(xs, es));
  }

  function Correlated(entries: seq<Entry>, exits: seq<Exit>, pnls: seq<Pnl>, heartbeats: map<string, seq<Heartbeat>>)
    : seq<Trade>
  {
    var ps := StableSort(pnls, PnlTs);
    Completed(ClosedOf(StableSort(exits, ExitTs), StableSort(entries, EntryTs)), ps, |ps|, TradeMaker(heartbeats))
  }

  // ----- index-wise pairing -----

  ghost predicate Indexwise(trades: seq<Trade>, closed: seq<Closed>, ps: seq<Pnl>, make: Maker) {
    && |trades| == Min(|closed|, |ps|)
    && forall i :: 0 <= i < |trades| ==> trades[i] == make(closed[i], ps[i])
  }

  ghost predicate KeepsKey(make: Maker) {
    forall c, p :: make(c, p).key == p.key
  }

  lemma FilterCompleted(done: seq<Trade>, closed: seq<Closed>, p: Pnl, n: nat, make: Maker, k: Key)
    requires KeepsKey(make)
    ensures var t := TradeAt(closed, p, n, make);
      Filter(done + t, TradeFor(k)) == if p.key == k then Filter(done, TradeFor(k)) + t else Filter(done, TradeFor(k))
  {
    var t := TradeAt(closed, p, n, make);
    FilterConcat(done, t, TradeFor(k));
    if t != [] { assert t[0] == make(closed[n], p) && t[1..] == []; }
    assert Filter(done, TradeFor(k)) + [] == Filter(done, TradeFor(k));
  }

  lemma IndexwiseSnoc(trades: seq<Trade>, closed: seq<Closed>, seen: seq<Pnl>, p: Pnl, make: Maker)
    requires Indexwise(trades, closed, seen, make)
    ensures Indexwise(trades + TradeAt(closed, p, |seen|, make), closed, seen + [p], make)
  {
  }

  lemma IndexwiseStep(done: seq<Trade>, q: seq<Closed>, p: Pnl, n: nat, closed: seq<Closed>, seen: seq<Pnl>,
                      seen': seq<Pnl>, make: Maker, k: Key)
    requires KeepsKey(make) && Indexwise(Filter(done, TradeFor(k)), closed, seen, make)
    requires if p.key == k then q == closed && n == |seen| && seen' == seen + [p] else seen' == seen
    ensures Indexwise(Filter(done + TradeAt(q, p, n, make), TradeFor(k)), closed, seen', make)
  {
    FilterCompleted(done, q, p, n, make, k);
    if p.key == k { IndexwiseSnoc(Filter(done, TradeFor(k)), closed, seen, p, make); }
  }

  lemma CompletedNext(closed: Key -> seq<Closed>, ps: seq<Pnl>, i: nat, make: Maker)
    requires i < |ps|
    ensures var p := ps[i];
      Completed(closed, ps, i + 1, make)
        == Completed(closed, ps, i, make) + TradeAt(closed(p.key), p, |Seen(ps, i, PnlOf(p.key))|, make)
  {
  }

  lemma {:induction false} CompletedByIndex(closed: Key -> seq<Closed>, ps: seq<Pnl>, i: nat, make: Maker, k: Key)
    requires i <= |ps| && KeepsKey(make)
    ensures Indexwise(Filter(Completed(closed, ps, i, make), TradeFor(k)), closed(k), Seen(ps, i, PnlOf(k)), make)
  {
    if i > 0 {
      var p := ps[i - 1];
      CompletedByIndex(closed, ps, i - 1, make, k);
      SeenNext(ps, i - 1, PnlOf(k));
      CompletedNext(closed, ps, i - 1, make);
      IndexwiseStep(Completed(closed, ps, i - 1, make), closed(p.key), p, |Seen(ps, i - 1, PnlOf(p.key))|,
                    closed(k), Seen(ps, i - 1, PnlOf(k)), Seen(ps, i, PnlOf(k)), make, k);
    }
  }

  /** The latest heartbeat at or before a time, with its age, or none if they are all later. */
  ghost predicate IsContext(context: Option<Context>, ts: int, hbs: seq<Heartbeat>) {
    match context
    case None => forall j :: 0 <= j < |hbs| ==> ts < hbs[j].ts
    case Some(c) =>
      exists i :: 0 <= i < |hbs| && hbs[i] == c.hb && c.hb.ts <= ts && c.age == ts - c.hb.ts
        && forall j :: i < j < |hbs| ==> ts < hbs[j].ts
  }

  /** What a trade says of its exit, of its entry if it has one, and of its PnL line. */
  ghost predicate Tells(t: Trade, x: Exit, e: Option<Entry>, p: Pnl) {
    && t.key == p.key && t.pnl == p.value
    && t.market == x.market && t.exitTs == x.ts && t.exitBid == x.bid && t.reason == x.reason
    && match e
       case None => t.entryTs.None? && t.hold.None? && t.entryPrice.None? && t.shares == x.shares
       case Some(e) =>
         && t.entryTs == Some(e.ts) && t.hold == Some(x.ts - e.ts) && t.entryPrice == Some(e.price)
         && t.shares == e.shares
  }

  /** And of the heartbeats of its asset. */
  ghost predicate TellsContext(t: Trade, x: Exit, e: Option<Entry>, hbs: seq<Heartbeat>) {
    && IsContext(t.exitContext, x.ts, hbs)
    && if e.Some? then IsContext(t.entryContext, e.value.ts, hbs) else t.entryContext.None?
  }

  lemma TradeTells(x: Exit, e: Option<Entry>, p: Pnl, heartbeats: map<string, seq<Heartbeat>>, hbs: seq<Heartbeat>)
    requires hbs == if p.key.asset in heartbeats then heartbeats[p.key.asset] else []
    ensures var t := TradeOf(Closed(x, e), p, heartbeats);
      Tells(t, x, e, p) && (SortedBy(hbs, HeartbeatTs) ==> TellsContext(t, x, e, hbs))
  {
    if SortedBy(hbs, HeartbeatTs) {
      NearestIsLatest(x.ts, hbs);
      if e.Some? { NearestIsLatest(e.value.ts, hbs); }
    }
  }

  /** The two queues of `correlate_trades` amount to pairing by index: for every key, with the entries, exits and
      PnL lines of that key each in stable order of time, trade `i` is made of exit `i`, entry `i` if there is
      one, and PnL line `i`. Nothing is used twice, and nothing of another key is used at all. */
  lemma {:induction false} PairedByIndex(entries: seq<Entry>, exits: seq<Exit>, pnls: seq<Pnl>,
                                         heartbeats: map<string, seq<Heartbeat>>, k: Key)
    ensures var x := StableSort(Filter(exits, ExitOf(k)), ExitTs);
      var e := StableSort(Filter(entries, EntryOf(k)), EntryTs);
      var p := StableSort(Filter(pnls, PnlOf(k)), PnlTs);
      var trades := Filter(Correlated(entries, exits, pnls, heartbeats), TradeFor(k));
      && |trades| == Min(|x|, |p|)
      && forall i :: 0 <= i < |trades| ==> trades[i] == TradeOf(Closed(x[i], Nth(e, i)), p[i], heartbeats)
  {
    var xs, es, ps := StableSort(exits, ExitTs), StableSort(entries, EntryTs), StableSort(pnls, PnlTs);
    CompletedByIndex(ClosedOf(xs, es), ps, |ps|, TradeMaker(heartbeats), k);
    SeenAll(ps, PnlOf(k));
    SortIsStable(exits, ExitTs, ExitOf(k));
    SortIsStable(entries, EntryTs, EntryOf(k));
    SortIsStable(pnls, PnlTs, PnlOf(k));
  }

  lemma {:induction false} SortedOfKey<T>(s: seq<T>, f: T -> int, p: T -> bool, i: int)
    requires 0 <= i < |StableSort(Filter(s, p), f)|
    ensures p(StableSort(Filter(s, p), f)[i])
  {
    var kept := Filter(s, p);
    SortSorts(kept, f);
    var x := StableSort(kept, f)[i];
    assert x in multiset(StableSort(kept, f)) && x in multiset(kept);
    FilterMember(s, p, x);
  }

  /** So every trade tells the market, the exit time, the bid and the reason of its exit, the profit of its PnL line,
      and of its entry, if it has one, the time, the price, the size and how long it was held; and on heartbeats in
      order of time, the latest heartbeat at or before the entry and the latest at or before the exit. */
  lemma {:induction false} CorrelationIsIndexwise(entries: seq<Entry>, exits: seq<Exit>, pnls: seq<Pnl>,
                                                  heartbeats: map<string, seq<Heartbeat>>, k: Key)
    ensures var x := StableSort(Filter(exits, ExitOf(k)), ExitTs);
      var e := StableSort(Filter(entries, EntryOf(k)), EntryTs);
      var p := StableSort(Filter(pnls, PnlOf(k)), PnlTs);
      var trades := Filter(Correlated(entries, exits, pnls, heartbeats), TradeFor(k));
      var hbs := if k.asset in heartbeats then heartbeats[k.asset] else [];
      && |trades| == (if |x| < |p| then |x| else |p|)
      && (forall i :: 0 <= i < |trades| ==>
            var entry := if i < |e| then Some(e[i]) else None;
            && Tells(trades[i], x[i], entry, p[i])
            && (SortedBy(hbs, HeartbeatTs) ==> TellsContext(trades[i], x[i], entry, hbs)))
  {
    var x := StableSort(Filter(exits, ExitOf(k)), ExitTs);
    var e := StableSort(Filter(entries, EntryOf(k)), EntryTs);
    var p := StableSort(Filter(pnls, PnlOf(k)), PnlTs);
    var hbs := if k.asset in heartbeats then heartbeats[k.asset] else [];
    PairedByIndex(entries, exits, pnls, heartbeats, k);
    forall i | 0 <= i < |p| ensures p[i].key == k { SortedOfKey(pnls, PnlTs, PnlOf(k), i); }
    forall i | 0 <= i < |x| && i < |p| { TradeTells(x[i], Nth(e, i), p[i], heartbeats, hbs); }
  }
}
