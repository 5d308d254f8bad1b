/** The registry that reports an order-book feed as dark. */
module BookFeed {

  /** Seconds without a book after which a market is reported dark. */
  const DARK_AFTER := 90.0

  datatype FeedState = FeedState(lastLive: real, dark: bool, market: string)

  type Registry = map<string, FeedState>

  /** What one call writes to the log. */
  datatype Log = Quiet | Recovered | WentDark

  function NoteInner(reg: Registry, name: string, market: string, hasBook: bool, now: real): (Registry, Log) {
    var known := if name in reg then reg[name] else FeedState(now, false, market);
    var entry := if market != [] && known.market != market then FeedState(now, false, market) else known;
    if hasBook then (reg[name := entry.(lastLive := now, dark := false)], if entry.dark then Recovered else Quiet)
    else if !entry.dark && now - entry.lastLive >= DARK_AFTER then (reg[name := entry.(dark := true)], WentDark)
    else (reg[name := entry], Quiet)
  }

  /** No market is selected: restart the clock of a known feed, silently. */
  function StandDown(reg: Registry, name: string, now: real): Registry {
    if name in reg then reg[name := FeedState(now, false, "")] else reg
  }

  datatype Event =
    | NoteMarket(name: string, market: string, hasBook: bool, now: real)
    | Note(name: string, hasBook: bool, now: real)
    | Forget(name: string)

  function Apply(reg: Registry, e: Event): (Registry, Log) {
    match e
    case NoteMarket(name, market, hasBook, now) =>
      if market == [] then (StandDown(reg, name, now), Quiet) else NoteInner(reg, name, market, hasBook, now)
    case Note(name, hasBook, now) => NoteInner(reg, name, "", hasBook, now)
    case Forget(name) => (reg - {name}, Quiet)
  }

  class Feeds {
    var reg: Registry

    constructor ()
      ensures reg == map[]
    {
      reg := map[];
    }

    method NoteMarket(name: string, market: string, hasBook: bool, now: real) returns (log: Log)
      modifies this
      ensures (reg, log) == Apply(old(reg), Event.NoteMarket(name, market, hasBook, now))
    {
      if market == [] {
        if name in reg { reg := reg[name := reg[name].(lastLive := now, dark := false, market := "")]; }
        return Quiet;
      }
      log := Observe(name, market, hasBook, now);
    }

    method Note(name: string, hasBook: bool, now: real) returns (log: Log)
      modifies this
      ensures (reg, log) == Apply(old(reg), Event.Note(name, hasBook, now))
    {
      log := Observe(name, "", hasBook, now);
    }

    method Observe(name: string, market: string, hasBook: bool, now: real) returns (log: Log)
      modifies this
      ensures (reg, log) == NoteInner(old(reg), name, market, hasBook, now)
    {
      log := Quiet;
      if name !in reg { reg := reg[name := FeedState(now, false, market)]; }
      if market != [] && reg[name].market != market {
        reg := reg[name := reg[name].(market := market, lastLive := now, dark := false)];
      }
      if hasBook {
        if reg[name].dark { log := Recovered; }
        reg := reg[name := reg[name].(lastLive := now, dark := false)];
        assert reg == NoteInner(old(reg), name, market, hasBook, now).0;
        return;
      }
      if !reg[name].dark && now - reg[name].lastLive >= DARK_AFTER {
        reg := reg[name := reg[name].(dark := true)];
        log := WentDark;
      }
      assert reg == NoteInner(old(reg), name, market, hasBook, now).0;
    }

    method Forget(name: string)
      modifies this
      ensures (reg, Quiet) == Apply(old(reg), Event.Forget(name))
    {
      reg := reg - {name};
    }
  }

  // ----- histories -----

  function Run(h: seq<Event>, n: nat): Registry
    requires n <= |h|
  {
    if n == 0 then map[] else Apply(Run(h, n - 1), h[n - 1]).0
  }

  /** What call `i` of a history writes to the log. */
  function LogAt(h: seq<Event>, i: nat): Log
    requires i < |h|
  {
    Apply(Run(h, i), h[i]).1
  }

  predicate Observes(e: Event) { e.Note? || (e.NoteMarket? && e.market != []) }

  predicate StandsDown(e: Event) { e.NoteMarket? && e.market == [] }

  function Named(e: Event): string { if e.NoteMarket? then e.market else "" }

  /** Some observation of this feed came after it was last forgotten. */
  predicate Seen(h: seq<Event>, name: string, n: nat)
    requires n <= |h|
  {
    n > 0 &&
    var e := h[n - 1];
    if e.name != name || StandsDown(e) then Seen(h, name, n - 1) else Observes(e)
  }

  /** The market named by the last observation that named one since the feed stood down or was forgotten. */
  function Followed(h: seq<Event>, name: string, n: nat): string
    requires n <= |h|
  {
    if n == 0 then ""
    else
      var e := h[n - 1];
      if e.name != name || (Observes(e) && Named(e) == "") then Followed(h, name, n - 1)
      else if Observes(e) then Named(e)
      else ""
  }

  /** First sight, a live book, a rotation onto another named market, or a stand-down. */
  predicate Resets(h: seq<Event>, name: string, i: nat)
    requires i < |h|
  {
    var e := h[i];
    && e.name == name
    && if Observes(e) then !Seen(h, name, i) || e.hasBook || (Named(e) != "" && Named(e) != Followed(h, name, i))
       else StandsDown(e) && Seen(h, name, i)
  }

  predicate Forgets(h: seq<Event>, name: string, i: nat)
    requires i < |h|
  {
    h[i] == Forget(name)
  }

  /** The last reset of the feed before `n`, with the feed not forgotten since. */
  ghost predicate LastReset(h: seq<Event>, name: string, n: nat, r: nat)
    requires n <= |h|
  {
    && r < n && Resets(h, name, r) && !h[r].Forget?
    && forall j: nat :: r < j < n ==> !Resets(h, name, j) && !Forgets(h, name, j)
  }

  /** Observation `i` found no book at least 90 seconds after the reset `r`. */
  predicate MissesBook(h: seq<Event>, name: string, r: nat, i: nat)
    requires r < |h| && i < |h| && !h[r].Forget?
  {
    h[i].name == name && Observes(h[i]) && !h[i].hasBook && h[i].now - h[r].now >= 90.0
  }

  /** The feed is dark as far as its history goes. */
  ghost predicate DarkByHistory(h: seq<Event>, name: string, n: nat)
    requires n <= |h|
  {
    exists r: nat, i: nat :: LastReset(h, name, n, r) && r < i < n && MissesBook(h, name, r, i)
  }

  lemma LastResetUnique(h: seq<Event>, name: string, n: nat, r: nat, s: nat)
    requires n <= |h| && LastReset(h, name, n, r) && LastReset(h, name, n, s)
    ensures r == s
  {
  }

  /** The registry remembers exactly the last reset and whether a book was missed since. */
  ghost predicate Remembers(h: seq<Event>, name: string, n: nat, r: nat)
    requires n <= |h|
  {
    && name in Run(h, n) && Run(h, n)[name].market == Followed(h, name, n)
    && LastReset(h, name, n, r) && Run(h, n)[name].lastLive == h[r].now
    && (Run(h, n)[name].dark <==> exists i: nat :: r < i < n && MissesBook(h, name, r, i))
  }

  ghost predicate Unknown(h: seq<Event>, name: string, n: nat)
    requires n <= |h|
  {
    name !in Run(h, n) && Followed(h, name, n) == "" && forall s: nat :: !LastReset(h, name, n, s)
  }

  lemma UnknownStep(h: seq<Event>, name: string, n: nat)
    requires n < |h| && !Seen(h, name, n + 1) && (Unknown(h, name, n) || h[n] == Forget(name))
    ensures Unknown(h, name, n + 1)
  {
    var m := n + 1;
    forall s: nat ensures !LastReset(h, name, m, s) {
      if LastReset(h, name, m, s) && s < n {
        assert !Forgets(h, name, n);
        assert LastReset(h, name, n, s);
      }
    }
  }

  lemma ResetStep(h: seq<Event>, name: string, n: nat)
    requires n < |h| && Resets(h, name, n) && (name in Run(h, n) <==> Seen(h, name, n))
    requires Followed(h, name, n) == if name in Run(h, n) then Run(h, n)[name].market else ""
    ensures Remembers(h, name, n + 1, n)
  {
    assert LastReset(h, name, n + 1, n);
  }

  lemma QuietStep(h: seq<Event>, name: string, n: nat, r: nat)
    requires n < |h| && Remembers(h, name, n, r) && Seen(h, name, n)
    requires !Resets(h, name, n) && !Forgets(h, name, n)
    ensures Remembers(h, name, n + 1, r)
  {
    assert LastReset(h, name, n + 1, r);
    if exists i: nat :: r < i < n && MissesBook(h, name, r, i) {
      var i: nat :| r < i < n && MissesBook(h, name, r, i);
      assert r < i < n + 1;
    }
    assert h[n].name == name ==> (MissesBook(h, name, r, n) <==> h[n].now - h[r].now >= DARK_AFTER);
  }

  lemma {:induction false} FeedInvariant(h: seq<Event>, name: string, n: nat) returns (r: nat)
    requires n <= |h|
    ensures name in Run(h, n) <==> Seen(h, name, n)
    ensures if Seen(h, name, n) then Remembers(h, name, n, r) else Unknown(h, name, n)
  {
    r := 0;
    if n > 0 {
      var m := n - 1;
      r := FeedInvariant(h, name, m);
      if !Seen(h, name, n) {
        UnknownStep(h, name, m);
      } else if Resets(h, name, m) {
        ResetStep(h, name, m);
        r := m;
      } else {
        QuietStep(h, name, m, r);
      }
    }
  }

  /** In every history a feed is dark exactly when some observation without a book came at least 90 seconds
      after the last reset, which nothing has reset or forgotten since; and the market reported with it is the
      one last named. */
  lemma DarkIsDecidedByHistory(h: seq<Event>, name: string, n: nat)
    requires n <= |h|
    ensures name in Run(h, n) && Run(h, n)[name].dark <==> DarkByHistory(h, name, n)
    ensures name in Run(h, n) ==> Run(h, n)[name].market == Followed(h, name, n)
  {
    var r := FeedInvariant(h, name, n);
    if DarkByHistory(h, name, n) {
      var s: nat, i: nat :| LastReset(h, name, n, s) && s < i < n && MissesBook(h, name, s, i);
      LastResetUnique(h, name, n, r, s);
    }
  }

  /** A live book for a feed that is dark and stays on its market. */
  ghost predicate Recovers(h: seq<Event>, i: nat)
    requires i < |h|
  {
    && Observes(h[i]) && h[i].hasBook && DarkByHistory(h, h[i].name, i)
    && (Named(h[i]) == "" || Named(h[i]) == Followed(h, h[i].name, i))
  }

  /** The log warns of a feed at exactly the calls that turn it dark, and tells of its recovery at exactly the live
      books that find it dark on the same market. */
  lemma LogsExactly(h: seq<Event>, i: nat)
    requires i < |h|
    ensures LogAt(h, i) == WentDark <==> !DarkByHistory(h, h[i].name, i) && DarkByHistory(h, h[i].name, i + 1)
    ensures LogAt(h, i) == Recovered <==> Recovers(h, i)
  {
    DarkIsDecidedByHistory(h, h[i].name, i);
    DarkIsDecidedByHistory(h, h[i].name, i + 1);
  }

  /** Between two warnings about the same feed it was reset or forgotten. */
  lemma WarningsAreSeparated(h: seq<Event>, i: nat, j: nat)
    requires i < j < |h| && h[i].name == h[j].name && LogAt(h, i) == WentDark && LogAt(h, j) == WentDark
    ensures exists k: nat :: i < k < j && (Resets(h, h[i].name, k) || Forgets(h, h[i].name, k))
  {
    var name := h[i].name;
    if forall k: nat :: i < k < j ==> !Resets(h, name, k) && !Forgets(h, name, k) {
      StaysDark(h, name, i + 1, j);
      assert false;
    }
  }

  lemma {:induction false} StaysDark(h: seq<Event>, name: string, i: nat, j: nat)
    requires i <= j <= |h| && name in Run(h, i) && Run(h, i)[name].dark
    requires forall k: nat :: i <= k < j ==> !Resets(h, name, k) && !Forgets(h, name, k)
    ensures name in Run(h, j) && Run(h, j)[name].dark
  {
    if i < j {
      StaysDark(h, name, i, j - 1);
      var r := FeedInvariant(h, name, j - 1);
      QuietStep(h, name, j - 1, r);
      var k: nat :| r < k < j - 1 && MissesBook(h, name, r, k);
      assert r < k < j;
    }
  }
}
