/** One-time tickets that open the archive download. */
module TicketJar {
  import opened Sorting
  import opened Wrappers

  type Ticket = seq<bv8>

  const TTL_SECS := 60.0
  const CAP := 32

  // ----- eq_constant_time -----

  function Difference(a: Ticket, b: Ticket, acc: bv8): bv8
    requires |a| == |b|
  {
    if a == [] then acc else Difference(a[1..], b[1..], acc | (a[0] ^ b[0]))
  }

  predicate EqConstantTime(a: Ticket, b: Ticket) {
    |a| == |b| && Difference(a, b, 0) == 0
  }

  lemma XorOr(acc: bv8, x: bv8, y: bv8)
    ensures acc | (x ^ y) == 0 <==> acc == 0 && x == y
  {
  }

  lemma SameCons(a: Ticket, b: Ticket)
    requires |a| == |b| > 0
    ensures a == b <==> a[0] == b[0] && a[1..] == b[1..]
  {
    assert a == [a[0]] + a[1..] && b == [b[0]] + b[1..];
  }

  lemma {:induction false} DifferenceIsZero(a: Ticket, b: Ticket, acc: bv8)
    requires |a| == |b|
    ensures Difference(a, b, acc) == 0 <==> acc == 0 && a == b
  {
    if a != [] {
      var next := acc | (a[0] ^ b[0]);
      XorOr(acc, a[0], b[0]);
      DifferenceIsZero(a[1..], b[1..], next);
      SameCons(a, b);
      assert Difference(a, b, acc) == Difference(a[1..], b[1..], next);
    }
  }

  /** The fold over exclusive-or and or decides equality. */
  lemma EqConstantTimeIsEquality(a: Ticket, b: Ticket)
    ensures EqConstantTime(a, b) <==> a == b
  {
    if |a| == |b| { DifferenceIsZero(a, b, 0); }
  }

  // ----- the jar -----

  datatype Slot = Slot(ticket: Ticket, expires: real)

  function Live(now: real): Slot -> bool { (s: Slot) => s.expires > now }

  function Prune(jar: seq<Slot>, now: real): seq<Slot> { Filter(jar, Live(now)) }

  function Position(jar: seq<Slot>, ticket: Ticket): (r: Option<nat>)
    ensures r.Some? ==> r.value < |jar| && EqConstantTime(jar[r.value].ticket, ticket)
    ensures r.Some? ==> forall j :: 0 <= j < r.value ==> !EqConstantTime(jar[j].ticket, ticket)
    ensures r.None? ==> forall j :: 0 <= j < |jar| ==> !EqConstantTime(jar[j].ticket, ticket)
  {
    if jar == [] then None
    else if EqConstantTime(jar[0].ticket, ticket) then Some(0)
    else
      match Position(jar[1..], ticket)
      case Some(i) => Some(i + 1)
      case None => None
  }

  function Without<T>(s: seq<T>, i: nat): seq<T>
    requires i < |s|
  {
    s[..i] + s[i + 1..]
  }

  function DropExcess<T>(s: seq<T>): seq<T> {
    if |s| > CAP then s[|s| - CAP..] else s
  }

  function IssueInto(jar: seq<Slot>, ticket: Ticket, now: real): seq<Slot> {
    DropExcess(Prune(jar, now) + [Slot(ticket, now + TTL_SECS)])
  }

  function RedeemFrom(jar: seq<Slot>, ticket: Ticket, now: real): (seq<Slot>, bool) {
    var kept := Prune(jar, now);
    match Position(kept, ticket)
    case Some(i) => (Without(kept, i), true)
    case None => (kept, false)
  }

  class Jar {
    var tickets: seq<Slot>

    constructor ()
      ensures tickets == []
    {
      tickets := [];
    }

    method PruneExpired(now: real)
      modifies this
      ensures tickets == Prune(old(tickets), now)
    {
      tickets := Filter(tickets, Live(now));
    }

    /** `minted` stands for the 32 random bytes of the new ticket. */
    method Issue(minted: Ticket, now: real) returns (ticket: Ticket)
      modifies this
      ensures tickets == IssueInto(old(tickets), minted, now) && ticket == minted
    {
      PruneExpired(now);
      ticket := minted;
      tickets := tickets + [Slot(ticket, now + TTL_SECS)];
      if |tickets| > CAP {
        var excess := |tickets| - CAP;
        tickets := tickets[excess..];
      }
    }

    method Redeem(ticket: Ticket, now: real) returns (ok: bool)
      modifies this
      ensures (tickets, ok) == RedeemFrom(old(tickets), ticket, now)
    {
      PruneExpired(now);
      match Position(tickets, ticket)
      case Some(i) =>
        tickets := tickets[..i] + tickets[i + 1..];
        ok := true;
      case None => ok := false;
    }
  }

  // ----- histories -----

  datatype Event = Issue(ticket: Ticket, now: real) | Redeem(ticket: Ticket, now: real)

  function JarAt(h: seq<Event>, n: nat): seq<Slot>
    requires n <= |h|
  {
    if n == 0 then []
    else
      match h[n - 1]
      case Issue(ticket, now) => IssueInto(JarAt(h, n - 1), ticket, now)
      case Redeem(ticket, now) => RedeemFrom(JarAt(h, n - 1), ticket, now).0
  }

  /** Whether the redeem that comes after the first `n` events succeeds. */
  predicate Redeems(h: seq<Event>, n: nat, ticket: Ticket, now: real)
    requires n <= |h|
  {
    RedeemFrom(JarAt(h, n), ticket, now).1
  }

  /** The clock does not go back, and no ticket is minted twice. */
  ghost predicate Regular(h: seq<Event>) {
    && (forall i, j :: 0 <= i < j < |h| ==> h[i].now <= h[j].now)
    && (forall i, j :: 0 <= i < j < |h| && h[i].Issue? && h[j].Issue? ==> h[i].ticket != h[j].ticket)
  }

  /** Nobody tried the ticket issued by event `i` before event `n`. */
  ghost predicate Untried(h: seq<Event>, i: nat, n: nat)
    requires i < n <= |h|
  {
    forall j :: i < j < n ==> h[j] != Redeem(h[i].ticket, h[j].now)
  }

  /** The tickets issued after event `i` that nobody has tried before event `n`. */
  ghost function Younger(h: seq<Event>, i: nat, n: nat): set<int>
    requires n <= |h|
  {
    set k: int | i < k < n && h[k].Issue? && Untried(h, k, n)
  }

  /** The issue of event `j` makes 32 tickets that are younger than the one of event `i`. */
  ghost predicate Pushes(h: seq<Event>, i: nat, j: nat)
    requires j < |h|
  {
    h[j].Issue? && |Younger(h, i, j + 1)| >= 32
  }

  /** At some moment 32 younger tickets were outstanding, so the one of event `i` was forgotten as the oldest. */
  ghost predicate PushedOut(h: seq<Event>, i: nat, n: nat)
    requires n <= |h|
  {
    exists j: nat :: i < j < n && Pushes(h, i, j)
  }

  ghost predicate Outstanding(h: seq<Event>, i: nat, n: nat)
    requires n <= |h|
  {
    i < n && h[i].Issue? && Untried(h, i, n) && !PushedOut(h, i, n)
  }

  ghost predicate Fresh(h: seq<Event>, i: nat, now: real)
    requires i < |h|
  {
    now < h[i].now + 60.0
  }
}
