/** The ticket jar as a set of one-time tokens: what its answers depend on over whole histories. */
module TicketHistory {
  import opened Sorting
  import opened TicketJar

  // ----- the jar as a list of issue events -----

  function SlotOf(e: Event): Slot { Slot(e.ticket, e.now + TTL_SECS) }

  predicate Within(idx: seq<int>, n: int) {
    forall a :: 0 <= a < |idx| ==> 0 <= idx[a] < n
  }

  function Slots(h: seq<Event>, idx: seq<int>): (r: seq<Slot>)
    requires Within(idx, |h|)
    ensures |r| == |idx| && forall a :: 0 <= a < |idx| ==> r[a] == SlotOf(h[idx[a]])
  {
    if idx == [] then [] else [SlotOf(h[idx[0]])] + Slots(h, idx[1..])
  }

  function FreshAt(h: seq<Event>, now: real): int -> bool {
    (i: int) => 0 <= i < |h| && now < h[i].now + TTL_SECS
  }

  lemma {:induction false} PruneSlots(h: seq<Event>, idx: seq<int>, now: real)
    requires Within(idx, |h|)
    ensures Within(Filter(idx, FreshAt(h, now)), |h|)
    ensures Prune(Slots(h, idx), now) == Slots(h, Filter(idx, FreshAt(h, now)))
  {
    if idx != [] {
      PruneSlots(h, idx[1..], now);
      assert Slots(h, idx)[1..] == Slots(h, idx[1..]);
      var rest := Filter(idx[1..], FreshAt(h, now));
      assert ([idx[0]] + rest)[1..] == rest;
    }
  }

  ghost predicate Rising(s: seq<int>) {
    forall a, b :: 0 <= a < b < |s| ==> s[a] < s[b]
  }

  /** The events whose tickets are in the jar after `n` events, oldest first. */
  ghost predicate Holds(h: seq<Event>, n: nat, idx: seq<int>)
    requires n <= |h|
  {
    && Rising(idx) && |idx| <= CAP && Within(idx, n)
    && JarAt(h, n) == Slots(h, idx)
    && forall i: nat :: i in idx <==> n > 0 && Outstanding(h, i, n) && Fresh(h, i, h[n - 1].now)
  }

  lemma {:induction false} FilterRising(s: seq<int>, p: int -> bool, lo: int, n: int)
    requires Rising(s) && Within(s, n) && forall a :: 0 <= a < |s| ==> lo < s[a]
    ensures Rising(Filter(s, p)) && |Filter(s, p)| <= |s| && Within(Filter(s, p), n)
    ensures forall a :: 0 <= a < |Filter(s, p)| ==> lo < Filter(s, p)[a]
  {
    if s != [] { FilterRising(s[1..], p, s[0], n); }
  }

  lemma {:induction false} SetOfRising(s: seq<int>)
    requires Rising(s)
    ensures |set x | x in s| == |s|
  {
    if s != [] {
      var init, last := s[..|s| - 1], s[|s| - 1];
      SetOfRising(init);
      assert last !in init;
      assert s == init + [last];
      assert (set x | x in s) == (set x | x in init) + {last};
    }
  }

  // ----- histories grow -----

  lemma YoungerShrinks(h: seq<Event>, i: nat, k: nat, n: nat)
    requires i <= k && n <= |h|
    ensures |Younger(h, k, n)| <= |Younger(h, i, n)|
  {
    assert Younger(h, k, n) <= Younger(h, i, n);
    assert Younger(h, i, n) == Younger(h, k, n) + (Younger(h, i, n) - Younger(h, k, n));
  }

  /** A ticket that is pushed out takes every older one with it. */
  lemma {:induction false} PushedOutFirst(h: seq<Event>, i: nat, k: nat, n: nat)
    requires i <= k && n <= |h| && PushedOut(h, k, n)
    ensures PushedOut(h, i, n)
  {
    var j: nat :| k < j < n && Pushes(h, k, j);
    YoungerShrinks(h, i, k, j + 1);
    assert Pushes(h, i, j);
  }

  lemma OutstandingAfterIssue(h: seq<Event>, i: nat, n: nat)
    requires n < |h| && i < n && h[n].Issue?
    ensures Outstanding(h, i, n + 1) <==> Outstanding(h, i, n) && |Younger(h, i, n + 1)| < CAP
  {
    PushedOutStep(h, i, n);
    assert Untried(h, i, n) <==> Untried(h, i, n + 1);
  }

  lemma PushedOutStep(h: seq<Event>, i: nat, n: nat)
    requires n < |h| && i < n
    ensures PushedOut(h, i, n + 1) <==> PushedOut(h, i, n) || Pushes(h, i, n)
  {
  }

  lemma OutstandingAfterRedeem(h: seq<Event>, i: nat, n: nat)
    requires n < |h| && i < n && h[n].Redeem?
    ensures Outstanding(h, i, n + 1) <==> Outstanding(h, i, n) && h[i].ticket != h[n].ticket
  {
    PushedOutStep(h, i, n);
    assert Untried(h, i, n + 1) <==> Untried(h, i, n) && h[n] != Redeem(h[i].ticket, h[n].now);
  }

  // ----- one step -----

  /** What a prune at time `now` leaves: the outstanding tickets that are still fresh. */
  lemma Pruned(h: seq<Event>, n: nat, idx: seq<int>, now: real)
    requires n <= |h| && Holds(h, n, idx) && (n > 0 ==> h[n - 1].now <= now)
    ensures var p := Filter(idx, FreshAt(h, now));
      && Rising(p) && |p| <= CAP && Within(p, n)
      && (forall i: nat :: i in p <==> Outstanding(h, i, n) && Fresh(h, i, now))
      && Prune(JarAt(h, n), now) == Slots(h, p)
  {
    var p := Filter(idx, FreshAt(h, now));
    FilterRising(idx, FreshAt(h, now), -1, n);
    PruneSlots(h, idx, now);
    forall i: nat ensures i in p <==> Outstanding(h, i, n) && Fresh(h, i, now) {
      FilterMember(idx, FreshAt(h, now), i);
      if i in idx {
        var a :| 0 <= a < |idx| && idx[a] == i;
      }
    }
  }

  lemma YoungerMember(h: seq<Event>, n: nat, p: seq<int>, i: nat, k: nat)
    requires Regular(h) && n < |h| && h[n].Issue? && i in p && i < n
    requires forall j: nat :: j in p <==> Outstanding(h, j, n) && Fresh(h, j, h[n].now)
    ensures k in Younger(h, i, n + 1) <==> k == n || (k in p && i < k)
  {
    assert Outstanding(h, i, n) && Fresh(h, i, h[n].now);
    if i < k < n {
      if k in Younger(h, i, n + 1) {
        assert Untried(h, k, n);
        if PushedOut(h, k, n) { PushedOutFirst(h, i, k, n); }
        assert Outstanding(h, k, n) && Fresh(h, k, h[n].now);
      }
      if k in p {
        assert Outstanding(h, k, n);
        assert Untried(h, k, n + 1);
      }
    } else if k == n {
      assert Untried(h, n, n + 1);
    } else if k in p {
      assert Outstanding(h, k, n);
    }
  }

  lemma TailMember(p: seq<int>, q: seq<int>, n: nat, a: nat, k: int)
    requires Rising(p) && Within(p, n) && q == p + [n] && a < |p|
    ensures k in q[a + 1..] <==> k == n || (k in p && p[a] < k)
    ensures Rising(q[a + 1..])
  {
    var tail := q[a + 1..];
    assert tail[|tail| - 1] == n;
    if k in p && p[a] < k {
      var b :| 0 <= b < |p| && p[b] == k;
      assert tail[b - a - 1] == k;
    }
    if k in tail {
      var b :| 0 <= b < |tail| && tail[b] == k;
      assert q[b + a + 1] == k;
    }
  }

  lemma YoungerInJar(h: seq<Event>, n: nat, p: seq<int>, q: seq<int>, a: nat)
    requires Regular(h) && n < |h| && h[n].Issue? && q == p + [n] && a < |p|
    requires Rising(p) && Within(p, n)
    requires forall i: nat :: i in p <==> Outstanding(h, i, n) && Fresh(h, i, h[n].now)
    ensures |Younger(h, p[a], n + 1)| == |q| - 1 - a
  {
    var i, tail := p[a], q[a + 1..];
    assert i in p;
    forall k: nat ensures k in Younger(h, i, n + 1) <==> k in tail {
      YoungerMember(h, n, p, i, k);
      TailMember(p, q, n, a, k);
    }
    TailMember(p, q, n, a, n);
    assert Within(tail, n + 1);
    assert Younger(h, i, n + 1) == set k | k in tail;
    SetOfRising(tail);
  }

  lemma SlotsDrop(h: seq<Event>, q: seq<int>, c: nat)
    requires Within(q, |h|) && c <= |q|
    ensures Slots(h, q)[c..] == Slots(h, q[c..])
  {
  }

  lemma SlotsAppend(h: seq<Event>, p: seq<int>, i: int)
    requires Within(p, |h|) && 0 <= i < |h|
    ensures Slots(h, p + [i]) == Slots(h, p) + [SlotOf(h[i])]
  {
  }

  /** Of the kept tickets, one survives an issue exactly when it has fewer than 32 younger ones. */
  lemma IssueKeeps(h: seq<Event>, n: nat, p: seq<int>, i: nat)
    requires Regular(h) && n < |h| && h[n].Issue? && Rising(p) && |p| <= CAP && Within(p, n)
    requires forall k: nat :: k in p <==> Outstanding(h, k, n) && Fresh(h, k, h[n].now)
    ensures i in DropExcess(p + [n]) <==> i == n || (i in p && |Younger(h, i, n + 1)| < CAP)
  {
    var q := p + [n];
    var kept := DropExcess(q);
    var c := if |q| > CAP then |q| - CAP else 0;
    assert kept == q[c..] && q[|q| - 1] == n && kept[|kept| - 1] == n;
    if i in p {
      var a :| 0 <= a < |p| && p[a] == i;
      YoungerInJar(h, n, p, q, a);
      if c <= a {
        assert kept[a - c] == i;
      } else {
        assert forall b :: 0 <= b < |kept| ==> kept[b] == q[c + b] && q[a] < q[c + b];
      }
    }
    if i in kept && i != n {
      var b :| 0 <= b < |kept| && kept[b] == i;
      assert q[c + b] == i;
    }
  }

  lemma IssueMembers(h: seq<Event>, n: nat, p: seq<int>, i: nat)
    requires Regular(h) && n < |h| && h[n].Issue? && Rising(p) && |p| <= CAP && Within(p, n)
    requires forall k: nat :: k in p <==> Outstanding(h, k, n) && Fresh(h, k, h[n].now)
    ensures i in DropExcess(p + [n]) <==> Outstanding(h, i, n + 1) && Fresh(h, i, h[n].now)
  {
    IssueKeeps(h, n, p, i);
    if i < n {
      OutstandingAfterIssue(h, i, n);
    } else if i == n {
      assert Untried(h, i, n + 1) && !PushedOut(h, i, n + 1);
    }
  }

  lemma IssueShape(n: nat, p: seq<int>)
    requires Within(p, n) && |p| <= CAP && Rising(p)
    ensures var q := DropExcess(p + [n]); Within(q, n + 1) && Rising(q) && |q| <= CAP
  {
    var q := p + [n];
    assert Within(q, n + 1) && Rising(q);
    assert |q| > CAP ==> forall a :: 0 <= a < CAP ==> DropExcess(q)[a] == q[a + 1];
  }

  lemma IssueSlots(h: seq<Event>, n: nat, p: seq<int>)
    requires n < |h| && h[n].Issue? && Within(p, n) && |p| <= CAP && Within(DropExcess(p + [n]), |h|)
    ensures DropExcess(Slots(h, p) + [SlotOf(h[n])]) == Slots(h, DropExcess(p + [n]))
  {
    SlotsAppend(h, p, n);
    if |p| + 1 > CAP { SlotsDrop(h, p + [n], |p| + 1 - CAP); }
  }

  lemma IssueJar(h: seq<Event>, n: nat, p: seq<int>, jar: seq<Slot>)
    requires n < |h| && h[n].Issue? && Within(p, n) && |p| <= CAP && Within(DropExcess(p + [n]), |h|)
    requires Prune(jar, h[n].now) == Slots(h, p)
    ensures IssueInto(jar, h[n].ticket, h[n].now) == Slots(h, DropExcess(p + [n]))
  {
    IssueSlots(h, n, p);
  }

  lemma JarNext(h: seq<Event>, n: nat)
    requires n < |h|
    ensures JarAt(h, n + 1) ==
      if h[n].Issue? then IssueInto(JarAt(h, n), h[n].ticket, h[n].now)
      else RedeemFrom(JarAt(h, n), h[n].ticket, h[n].now).0
  {
  }

  lemma IssueStep(h: seq<Event>, n: nat, idx: seq<int>) returns (idx': seq<int>)
    requires Regular(h) && n < |h| && h[n].Issue? && Holds(h, n, idx)
    ensures Holds(h, n + 1, idx')
  {
    var p := Filter(idx, FreshAt(h, h[n].now));
    Pruned(h, n, idx, h[n].now);
    idx' := DropExcess(p + [n]);
    IssueShape(n, p);
    IssueJar(h, n, p, JarAt(h, n));
    JarNext(h, n);
    forall i: nat { IssueMembers(h, n, p, i); }
    NowHolds(h, n + 1, idx');
  }

  lemma SlotsWithout(h: seq<Event>, p: seq<int>, r: nat)
    requires Within(p, |h|) && r < |p|
    ensures Slots(h, Without(p, r)) == Without(Slots(h, p), r)
  {
  }

  /** At most one kept ticket has the text that is tried. */
  lemma TriedPosition(h: seq<Event>, p: seq<int>, ticket: Ticket)
    requires Regular(h) && Within(p, |h|) && Rising(p) && forall a :: 0 <= a < |p| ==> h[p[a]].Issue?
    ensures match Position(Slots(h, p), ticket)
      case Some(r) => forall a :: 0 <= a < |p| ==> (h[p[a]].ticket == ticket <==> a == r)
      case None => forall a :: 0 <= a < |p| ==> h[p[a]].ticket != ticket
  {
    var s := Slots(h, p);
    forall a | 0 <= a < |p| ensures EqConstantTime(s[a].ticket, ticket) <==> h[p[a]].ticket == ticket {
      EqConstantTimeIsEquality(s[a].ticket, ticket);
    }
    match Position(s, ticket)
    case Some(r) =>
      forall a | 0 <= a < |p| && a != r ensures h[p[a]].ticket != ticket {
        assert h[p[r]].ticket == ticket;
        assert p[a] < p[r] || p[r] < p[a];
      }
    case None =>
  }

  /** The kept events without the one whose ticket is tried. */
  function Untouched(h: seq<Event>, p: seq<int>, t: Ticket): seq<int>
    requires Within(p, |h|)
  {
    var pos := Position(Slots(h, p), t);
    if pos.Some? then Without(p, pos.value) else p
  }

  lemma RedeemShape(h: seq<Event>, n: nat, p: seq<int>, t: Ticket)
    requires Within(p, n) && n <= |h| && |p| <= CAP && Rising(p)
    ensures var q := Untouched(h, p, t); Within(q, n + 1) && Rising(q) && |q| <= CAP
  {
    var pos := Position(Slots(h, p), t);
    if pos.Some? { WithoutMember(p, pos.value, 0); }
  }

  lemma RedeemJar(h: seq<Event>, p: seq<int>, t: Ticket, now: real, jar: seq<Slot>)
    requires Within(p, |h|) && Within(Untouched(h, p, t), |h|) && Prune(jar, now) == Slots(h, p)
    ensures RedeemFrom(jar, t, now).0 == Slots(h, Untouched(h, p, t))
  {
    var pos := Position(Slots(h, p), t);
    if pos.Some? { SlotsWithout(h, p, pos.value); }
  }

  lemma RedeemStep(h: seq<Event>, n: nat, idx: seq<int>) returns (idx': seq<int>)
    requires Regular(h) && n < |h| && h[n].Redeem? && Holds(h, n, idx)
    ensures Holds(h, n + 1, idx')
  {
    var p := Filter(idx, FreshAt(h, h[n].now));
    Pruned(h, n, idx, h[n].now);
    idx' := Untouched(h, p, h[n].ticket);
    RedeemShape(h, n, p, h[n].ticket);
    RedeemJar(h, p, h[n].ticket, h[n].now, JarAt(h, n));
    JarNext(h, n);
    forall i: nat { RedeemMembers(h, n, p, i); }
    NowHolds(h, n + 1, idx');
  }

  /** The parts of `Holds`, put together. */
  lemma NowHolds(h: seq<Event>, n: nat, idx: seq<int>)
    requires 0 < n <= |h| && Rising(idx) && |idx| <= CAP && Within(idx, n) && JarAt(h, n) == Slots(h, idx)
    requires forall i: nat :: i in idx <==> Outstanding(h, i, n) && Fresh(h, i, h[n - 1].now)
    ensures Holds(h, n, idx)
  {
  }

  lemma RedeemMembers(h: seq<Event>, n: nat, p: seq<int>, i: nat)
    requires Regular(h) && n < |h| && h[n].Redeem? && Rising(p) && Within(p, n)
    requires forall k: nat :: k in p <==> Outstanding(h, k, n) && Fresh(h, k, h[n].now)
    ensures i in Untouched(h, p, h[n].ticket) <==> Outstanding(h, i, n + 1) && Fresh(h, i, h[n].now)
  {
    assert forall a :: 0 <= a < |p| ==> p[a] in p;
    RedeemKeeps(h, p, h[n].ticket, i);
    if i < n { OutstandingAfterRedeem(h, i, n); }
  }

  lemma WithoutMember(p: seq<int>, r: nat, i: int)
    requires Rising(p) && r < |p|
    ensures i in Without(p, r) <==> i in p && i != p[r]
    ensures Rising(Without(p, r))
  {
    var w := Without(p, r);
    if i in p && i != p[r] {
      var a :| 0 <= a < |p| && p[a] == i;
      assert w[if a < r then a else a - 1] == i;
    }
    if i in w {
      var b :| 0 <= b < |w| && w[b] == i;
      assert p[if b < r then b else b + 1] == i;
    }
  }

  lemma RedeemKeeps(h: seq<Event>, p: seq<int>, t: Ticket, i: nat)
    requires Regular(h) && Within(p, |h|) && Rising(p) && forall a :: 0 <= a < |p| ==> h[p[a]].Issue?
    ensures i in Untouched(h, p, t) <==> i in p && i < |h| && h[i].ticket != t
  {
    TriedPosition(h, p, t);
    var pos := Position(Slots(h, p), t);
    if pos.Some? { WithoutMember(p, pos.value, i); }
  }

  /** The jar always holds exactly the outstanding tickets that were fresh at the last event, oldest first. */
  lemma {:induction false} JarRefinesHistory(h: seq<Event>, n: nat) returns (idx: seq<int>)
    requires Regular(h) && n <= |h|
    ensures Holds(h, n, idx)
  {
    if n == 0 {
      idx := [];
    } else {
      idx := JarRefinesHistory(h, n - 1);
      if h[n - 1].Issue? { idx := IssueStep(h, n - 1, idx); } else { idx := RedeemStep(h, n - 1, idx); }
    }
  }

  /** It never holds more than 32 tickets, and they are ordered by expiry. */
  lemma JarIsBoundedAndOrdered(h: seq<Event>, n: nat)
    requires Regular(h) && n <= |h|
    ensures |JarAt(h, n)| <= 32
    ensures forall a, b :: 0 <= a < b < |JarAt(h, n)| ==> JarAt(h, n)[a].expires <= JarAt(h, n)[b].expires
  {
    var idx := JarRefinesHistory(h, n);
  }

  /** A redeem succeeds exactly when its ticket was issued less than 60 seconds earlier, was not tried before, and
      was not pushed out as the oldest by 32 younger outstanding ones. */
  lemma RedeemExactly(h: seq<Event>, n: nat, ticket: Ticket, now: real)
    requires Regular(h) && n <= |h| && (n > 0 ==> h[n - 1].now <= now)
    ensures Redeems(h, n, ticket, now) <==>
      exists i: nat :: i < n && h[i] == Issue(ticket, h[i].now) && now < h[i].now + TTL_SECS
        && Untried(h, i, n) && !PushedOut(h, i, n)
  {
    var idx := JarRefinesHistory(h, n);
    var p := Filter(idx, FreshAt(h, now));
    Pruned(h, n, idx, now);
    assert forall a :: 0 <= a < |p| ==> p[a] in p;
    TriedPosition(h, p, ticket);
    match Position(Slots(h, p), ticket) {
      case Some(r) =>
        var i: nat := p[r];
        assert i in p && Outstanding(h, i, n) && Fresh(h, i, now);
        assert h[i] == Issue(ticket, h[i].now);
      case None =>
        forall i: nat | i < n && h[i] == Issue(ticket, h[i].now) && now < h[i].now + TTL_SECS
          ensures !Untried(h, i, n) || PushedOut(h, i, n)
        {
          assert i in p <==> Outstanding(h, i, n) && Fresh(h, i, now);
        }
    }
  }
}
