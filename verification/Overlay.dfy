/** When laying some entries over a secrets file leaves all its other entries as they are. */
module Overlay {
  import opened Escaping
  import opened KeyOrder
  import opened Persistence
  import opened RoundTrip
  import opened SecretsFile
  import opened Text
  import opened Wrappers

  // ----- a row of the file, whatever its name -----

  /** A name may hold line breaks, so that its row takes up several lines. */
  function RowScan(scan: Scan, k: string, v: string): Scan { Run(scan, Lines(Row(k, v) + "\n")) }

  function RowsScan(scan: Scan, ks: seq<string>, m: Secrets): Scan
    requires forall k :: k in ks ==> k in m
    decreases ks
  {
    if ks == [] then scan else RowsScan(RowScan(scan, ks[0], m[ks[0]]), ks[1..], m)
  }

  lemma LinesFirst(line: string, rest: string)
    requires '\n' !in line
    ensures Lines(line + "\n" + rest) == [StripCr(line)] + Lines(rest)
  {
    var s := line + "\n" + rest;
    assert forall j :: 0 <= j < |line| ==> s[j] == line[j];
    IndexOfUnique(s, '\n', |line|);
    assert s[..|line|] == line && s[|line| + 1..] == rest;
  }

  lemma OneLine(a: string, b: string)
    requires '\n' !in a
    ensures Lines(a + "\n" + b) == Lines(a + "\n") + Lines(b)
  {
    assert a + "\n" + "" == a + "\n";
    LinesFirst(a, "");
    LinesFirst(a, b);
    assert Lines("") == [];
  }

  lemma {:induction false} LinesSplit(a: string, b: string)
    ensures Lines(a + "\n" + b) == Lines(a + "\n") + Lines(b)
    decreases |a|
  {
    var i := IndexOf(a, '\n');
    if i == |a| {
      OneLine(a, b);
    } else {
      LinesSplit(a[i + 1..], b);
      Prepend(a, i, b);
    }
  }

  lemma Prepend(a: string, i: nat, b: string)
    requires i < |a| && a[i] == '\n' && '\n' !in a[..i]
    ensures Lines(a + "\n") == [StripCr(a[..i])] + Lines(a[i + 1..] + "\n")
    ensures Lines(a + "\n" + b) == [StripCr(a[..i])] + Lines(a[i + 1..] + "\n" + b)
  {
    var piece, tail := a[..i], a[i + 1..];
    assert a + "\n" == piece + "\n" + (tail + "\n");
    assert a + "\n" + b == piece + "\n" + (tail + "\n" + b);
    LinesFirst(piece, tail + "\n");
    LinesFirst(piece, tail + "\n" + b);
  }

  lemma {:induction false} RunConcat(scan: Scan, a: seq<string>, b: seq<string>)
    ensures Run(scan, a + b) == Run(Run(scan, a), b)
    decreases a
  {
    if a == [] {
      assert a + b == b;
    } else {
      assert (a + b)[1..] == a[1..] + b;
      RunConcat(Step(scan, a[0]), a[1..], b);
    }
  }

  lemma {:induction false} RunRows(scan: Scan, ks: seq<string>, m: Secrets)
    requires forall k :: k in ks ==> k in m
    ensures Run(scan, Lines(RenderRows(ks, m))) == RowsScan(scan, ks, m)
    decreases ks
  {
    if ks != [] {
      var row, rest := Row(ks[0], m[ks[0]]), RenderRows(ks[1..], m);
      LinesSplit(row, rest);
      RunConcat(scan, Lines(row + "\n"), Lines(rest));
      RunRows(RowScan(scan, ks[0], m[ks[0]]), ks[1..], m);
    }
  }

  lemma RunHeader(title: string, warning: string, lines: seq<string>)
    requires Comment(title) && Comment(warning)
    ensures Run(FRESH, [title] + ([warning] + lines)) == Run(FRESH, lines)
  {
    CommentStep(map[], title);
    CommentStep(map[], warning);
    assert ([title] + ([warning] + lines))[1..] == [warning] + lines;
    assert ([warning] + lines)[1..] == lines;
    assert Run(FRESH, [title] + ([warning] + lines)) == Run(FRESH, [warning] + lines);
  }

  /** What reading back the rows of a map comes to. */
  ghost function Reading(m: Secrets): Scan { RowsScan(FRESH, SortedKeys(m.Keys), m) }

  lemma ScannedUnder(title: string, warning: string, m: Secrets)
    requires Comment(title) && Comment(warning)
    ensures Scanned(RenderUnder(title, warning, m)) == Reading(m)
  {
    var rows := RenderRows(SortedKeys(m.Keys), m);
    CommentStep(map[], title);
    CommentStep(map[], warning);
    LinesCons(title, warning + "\n" + rows);
    LinesCons(warning, rows);
    RunHeader(title, warning, Lines(rows));
    RunRows(FRESH, SortedKeys(m.Keys), m);
  }

  /** A written file is read row by row. */
  lemma {:induction false} ScannedRows(m: Secrets)
    ensures Scanned(Render(m)) == Reading(m)
  {
    TitleIsComment();
    WarningIsComment();
    ScannedUnder(TITLE, WARNING, m);
  }

  lemma {:induction false} RowsConcat(scan: Scan, a: seq<string>, b: seq<string>, m: Secrets)
    requires forall k :: k in a + b ==> k in m
    ensures RowsScan(scan, a + b, m) == RowsScan(RowsScan(scan, a, m), b, m)
    decreases a
  {
    if a == [] {
      assert a + b == b;
    } else {
      assert (a + b)[1..] == a[1..] + b;
      RowsConcat(RowScan(scan, a[0], m[a[0]]), a[1..], b, m);
    }
  }

  lemma RowsSnoc(scan: Scan, ks: seq<string>, k: string, m: Secrets)
    requires k in m && forall j :: j in ks ==> j in m
    ensures RowsScan(scan, ks + [k], m) == RowScan(RowsScan(scan, ks, m), k, m[k])
  {
    RowsConcat(scan, ks, [k], m);
    assert [k][1..] == [];
  }

  lemma {:induction false} SameRows(scan: Scan, ks: seq<string>, m: Secrets, n: Secrets)
    requires forall k :: k in ks ==> k in m && k in n && m[k] == n[k]
    ensures RowsScan(scan, ks, m) == RowsScan(scan, ks, n)
    decreases ks
  {
    if ks != [] { SameRows(RowScan(scan, ks[0], m[ks[0]]), ks[1..], m, n); }
  }

  // ----- what a scan depends on -----

  /** Every name under which something was or is being read. */
  function Names(scan: Scan): set<string> { Finish(scan).Keys }

  predicate Alike(a: Scan, b: Scan) {
    && a.found.Keys == b.found.Keys && (a.pending.Some? <==> b.pending.Some?)
    && (a.pending.Some? ==> a.pending.value.key == b.pending.value.key)
  }

  /** The names that are read do not depend on the values read before. */
  lemma {:induction false} RunAlike(a: Scan, b: Scan, lines: seq<string>)
    requires Alike(a, b)
    ensures Alike(Run(a, lines), Run(b, lines))
    decreases lines
  {
    if lines != [] {
      assert Alike(Step(a, lines[0]), Step(b, lines[0]));
      RunAlike(Step(a, lines[0]), Step(b, lines[0]), lines[1..]);
    }
  }

  lemma {:induction false} RowsAlike(a: Scan, b: Scan, ks: seq<string>, m: Secrets)
    requires Alike(a, b) && forall k :: k in ks ==> k in m
    ensures Alike(RowsScan(a, ks, m), RowsScan(b, ks, m))
    decreases ks
  {
    if ks != [] {
      RunAlike(a, b, Lines(Row(ks[0], m[ks[0]]) + "\n"));
      RowsAlike(RowScan(a, ks[0], m[ks[0]]), RowScan(b, ks[0], m[ks[0]]), ks[1..], m);
    }
  }

  /** Names are never forgotten. */
  lemma {:induction false} RunNames(scan: Scan, lines: seq<string>)
    ensures Names(scan) <= Names(Run(scan, lines))
    decreases lines
  {
    if lines != [] {
      assert Names(scan) <= Names(Step(scan, lines[0]));
      RunNames(Step(scan, lines[0]), lines[1..]);
    }
  }

  lemma {:induction false} RowsNames(scan: Scan, ks: seq<string>, m: Secrets)
    requires forall k :: k in ks ==> k in m
    ensures Names(scan) <= Names(RowsScan(scan, ks, m))
    decreases ks
  {
    if ks != [] {
      RunNames(scan, Lines(Row(ks[0], m[ks[0]]) + "\n"));
      RowsNames(RowScan(scan, ks[0], m[ks[0]]), ks[1..], m);
    }
  }

  /** What was found before plays no part in what a line does. */
  lemma {:induction false} RunFrame(a: Scan, b: Scan, lines: seq<string>)
    requires a.pending == b.pending
    ensures Run(a, lines).pending == Run(b, lines).pending && b.found.Keys <= Run(b, lines).found.Keys
    ensures forall e :: e !in Run(b, lines).found ==> SameEntry(a.found, Run(a, lines).found, e)
    decreases lines
  {
    if lines != [] {
      var a', b' := Step(a, lines[0]), Step(b, lines[0]);
      assert a'.pending == b'.pending && forall e :: e !in b'.found ==> SameEntry(a.found, a'.found, e);
      RunFrame(a', b', lines[1..]);
    }
  }

  // ----- sorted keys -----

  lemma {:induction false} SortedUnique(a: seq<string>, b: seq<string>)
    requires Ascending(a) && Ascending(b) && forall k :: k in a <==> k in b
    ensures a == b
    decreases |a|
  {
    assert (a != [] ==> a[0] in b) && (b != [] ==> b[0] in a);
    if a != [] {
      SortedHeads(a, b);
      SortedTail(a);
      SortedTail(b);
      SortedUnique(a[1..], b[1..]);
    }
  }

  lemma SortedHeads(a: seq<string>, b: seq<string>)
    requires Ascending(a) && Ascending(b) && a != [] && b != [] && a[0] in b && b[0] in a
    ensures a[0] == b[0]
  {
    if a[0] != b[0] {
      var i :| 0 <= i < |a| && a[i] == b[0];
      var j :| 0 <= j < |b| && b[j] == a[0];
      LessAsymmetric(a[0], b[0]);
    }
  }

  lemma SortedTail(a: seq<string>)
    requires Ascending(a) && a != []
    ensures Ascending(a[1..]) && forall k :: k in a[1..] <==> k in a && k != a[0]
  {
    forall k | k in a[1..] ensures k in a && k != a[0] {
      var i :| 0 <= i < |a[1..]| && a[1..][i] == k;
      assert a[i + 1] == k;
      LessAsymmetric(a[0], a[i + 1]);
    }
  }

  lemma SortedConcat(s: set<string>, t: set<string>)
    requires forall j, k :: j in s && k in t ==> Less(j, k)
    ensures SortedKeys(s + t) == SortedKeys(s) + SortedKeys(t)
  {
    var a, b := SortedKeys(s), SortedKeys(t);
    forall i, j | 0 <= i < j < |a + b| ensures Less((a + b)[i], (a + b)[j]) {
      if i < |a| <= j { assert a[i] in a && b[j - |a|] in b; }
    }
    SortedUnique(SortedKeys(s + t), a + b);
  }

  lemma SortedOne(k: string)
    ensures SortedKeys({k}) == [k]
  {
    SortedUnique(SortedKeys({k}), [k]);
  }

  // ----- the condition on the entries laid over -----

  /** The entries whose rows come before the row of `j`. */
  ghost function Below(p: Secrets, j: string): Secrets {
    map k | k in p && Less(k, j) :: p[k]
  }

  /** Written on their own, the entries read back under their own names only, and the rows before any other
      environment name leave no block open. */
  ghost predicate Separate(p: Secrets) {
    && Names(Reading(p)) <= p.Keys
    && forall j :: IsEnvKey(j) && j !in p ==> Reading(Below(p, j)).pending.None?
  }

  /** Laying `p` over `m`, writing the rows and reading them leaves every other entry as it is. */
  ghost predicate KeepsRows(m: Secrets, p: Secrets) {
    forall e :: e !in p ==> SameEntry(m, Finish(Reading(m + p)), e)
  }

  // ----- the condition suffices -----

  /** `a` has scanned the rows in `done`, and `b` those of them that are laid over. */
  ghost predicate InStep(a: Scan, b: Scan, done: seq<string>, m: Secrets, p: Secrets) {
    && a.pending == b.pending
    && forall e :: e !in p ==> (e in a.found <==> e in m && e in done) && (e in a.found ==> a.found[e] == m[e])
  }

  lemma StepTaken(a: Scan, b: Scan, done: seq<string>, m: Secrets, p: Secrets, k: string)
    requires InStep(a, b, done, m, p) && k in p && Names(RowScan(b, k, p[k])) <= p.Keys
    ensures InStep(RowScan(a, k, p[k]), RowScan(b, k, p[k]), done + [k], m, p)
  {
    RunFrame(a, b, Lines(Row(k, p[k]) + "\n"));
    var a', b' := RowScan(a, k, p[k]), RowScan(b, k, p[k]);
    forall e | e !in p ensures SameEntry(a.found, a'.found, e) && e != k {
      assert e !in Names(b') && e !in b'.found;
    }
  }

  lemma OneRow(scan: Scan, k: string, v: string)
    requires IsEnvKey(k)
    ensures RowScan(scan, k, v) == Step(scan, Row(k, v))
  {
    RowIsOneLine(k, v);
    assert Row(k, v) + "\n" + "" == Row(k, v) + "\n";
    LinesCons(Row(k, v), "");
    assert Lines("") == [] && Lines(Row(k, v) + "\n") == [Row(k, v)];
    assert Run(scan, [Row(k, v)]) == Run(Step(scan, Row(k, v)), [Row(k, v)][1..]);
  }

  lemma StepOther(a: Scan, b: Scan, done: seq<string>, m: Secrets, p: Secrets, k: string)
    requires InStep(a, b, done, m, p) && k in m && k !in p && IsEnvKey(k) && Admissible(m[k]) && b.pending.None?
    ensures InStep(RowScan(a, k, m[k]), b, done + [k], m, p)
  {
    OneRow(a, k, m[k]);
    RowStep(a.found, k, m[k]);
    DropBareFixpoint(Rust, m[k]);
    assert a == Scan(a.found, None);
  }

  ghost function Laid(done: seq<string>, p: Secrets): set<string> { set k | k in done && k in p }

  lemma ReadingBelow(p: Secrets, j: string, s: set<string>)
    requires forall k :: k in s <==> k in p && Less(k, j)
    ensures Reading(Below(p, j)) == RowsScan(FRESH, SortedKeys(s), p)
  {
    assert s == Below(p, j).Keys;
    SameRows(FRESH, SortedKeys(s), Below(p, j), p);
  }

  /** What has been read of the entries so far is among what is read of them in the end. */
  lemma NamesSoFar(p: Secrets, s: set<string>)
    requires s <= p.Keys && forall j, k :: j in s && k in p.Keys - s ==> Less(j, k)
    ensures Names(RowsScan(FRESH, SortedKeys(s), p)) <= Names(Reading(p))
  {
    SortedConcat(s, p.Keys - s);
    assert s + (p.Keys - s) == p.Keys;
    RowsConcat(FRESH, SortedKeys(s), SortedKeys(p.Keys - s), p);
    RowsNames(RowsScan(FRESH, SortedKeys(s), p), SortedKeys(p.Keys - s), p);
  }

  lemma NextRow(ks: seq<string>, i: nat)
    requires Ascending(ks) && i < |ks|
    ensures ks[..i + 1] == ks[..i] + [ks[i]] && ks[i] in ks
    ensures forall j :: j in ks[..i] <==> j in ks && Less(j, ks[i])
  {
    forall j ensures j in ks[..i] <==> j in ks && Less(j, ks[i]) { BeforeInOrder(ks, i, j); }
  }

  /** `r` is `p` laid over `m`. */
  ghost predicate LaidOver(m: Secrets, p: Secrets, r: Secrets) {
    && r.Keys == m.Keys + p.Keys
    && forall k :: k in r ==> r[k] == if k in p then p[k] else m[k]
  }

  /** The scans of the rows in `done`, of both the whole file and the entries laid over. */
  ghost predicate InStepAt(m: Secrets, p: Secrets, r: Secrets, done: seq<string>)
    requires forall k :: k in done ==> k in r
  {
    InStep(RowsScan(FRESH, done, r), RowsScan(FRESH, SortedKeys(Laid(done, p)), p), done, m, p)
  }

  lemma LaidSnoc(p: Secrets, done: seq<string>, k: string)
    requires k in p && forall j :: j in done ==> Less(j, k)
    ensures SortedKeys(Laid(done + [k], p)) == SortedKeys(Laid(done, p)) + [k]
  {
    assert Laid(done + [k], p) == Laid(done, p) + {k};
    SortedConcat(Laid(done, p), {k});
    SortedOne(k);
  }

  lemma LaidScan(p: Secrets, done: seq<string>, k: string)
    requires k in p && (forall j :: j in done ==> Less(j, k)) && forall j :: j in p && Less(j, k) ==> j in done
    ensures RowsScan(FRESH, SortedKeys(Laid(done + [k], p)), p)
         == RowScan(RowsScan(FRESH, SortedKeys(Laid(done, p)), p), k, p[k])
    ensures Names(RowsScan(FRESH, SortedKeys(Laid(done + [k], p)), p)) <= Names(Reading(p))
  {
    LaidSnoc(p, done, k);
    RowsSnoc(FRESH, SortedKeys(Laid(done, p)), k, p);
    NamesUpTo(p, Laid(done + [k], p), k);
  }

  lemma AdvanceTaken(m: Secrets, p: Secrets, r: Secrets, done: seq<string>, k: string)
    requires Names(Reading(p)) <= p.Keys && k in p && k in r && r[k] == p[k] && p.Keys <= r.Keys
    requires (forall j :: j in done <==> j in r && Less(j, k)) && InStepAt(m, p, r, done)
    ensures InStepAt(m, p, r, done + [k])
  {
    RowsSnoc(FRESH, done, k, r);
    LaidScan(p, done, k);
    StepTaken(RowsScan(FRESH, done, r), RowsScan(FRESH, SortedKeys(Laid(done, p)), p), done, m, p, k);
  }

  lemma NamesUpTo(p: Secrets, s: set<string>, k: string)
    requires k in p && forall j :: j in s <==> j in p && (j == k || Less(j, k))
    ensures Names(RowsScan(FRESH, SortedKeys(s), p)) <= Names(Reading(p))
  {
    forall j, l | j in s && l in p.Keys - s ensures Less(j, l) {
      LessTotal(k, l);
      if j != k { LessTransitive(j, k, l); }
    }
    NamesSoFar(p, s);
  }

  lemma OtherScan(p: Secrets, done: seq<string>, k: string)
    requires k !in p && (forall j :: j in done ==> Less(j, k)) && forall j :: j in p && Less(j, k) ==> j in done
    ensures RowsScan(FRESH, SortedKeys(Laid(done, p)), p) == Reading(Below(p, k))
    ensures Laid(done + [k], p) == Laid(done, p)
  {
    ReadingBelow(p, k, Laid(done, p));
  }

  lemma AdvanceOther(m: Secrets, p: Secrets, r: Secrets, done: seq<string>, k: string)
    requires Reading(Below(p, k)).pending.None? && k in r && k !in p && p.Keys <= r.Keys
    requires k in m && r[k] == m[k] && IsEnvKey(k) && Admissible(m[k])
    requires (forall j :: j in done <==> j in r && Less(j, k)) && InStepAt(m, p, r, done)
    ensures InStepAt(m, p, r, done + [k])
  {
    RowsSnoc(FRESH, done, k, r);
    OtherScan(p, done, k);
    StepOther(RowsScan(FRESH, done, r), Reading(Below(p, k)), done, m, p, k);
  }

  lemma AdvanceOne(m: Secrets, p: Secrets, r: Secrets, done: seq<string>, k: string)
    requires Healthy(m) && Separate(p) && LaidOver(m, p, r) && k in r
    requires (forall j :: j in done <==> j in r && Less(j, k)) && InStepAt(m, p, r, done)
    ensures InStepAt(m, p, r, done + [k])
  {
    if k in p {
      AdvanceTaken(m, p, r, done, k);
    } else {
      assert IsEnvKey(k) && Admissible(m[k]);
      AdvanceOther(m, p, r, done, k);
    }
  }

  /** The setting of the induction over the rows `ks` of the file, and where it stands after `i` of them. */
  ghost predicate Setting(m: Secrets, p: Secrets, r: Secrets, ks: seq<string>) {
    Healthy(m) && Separate(p) && LaidOver(m, p, r) && Ascending(ks) && forall k :: k in ks <==> k in r
  }

  ghost predicate Reached(m: Secrets, p: Secrets, r: Secrets, ks: seq<string>, i: nat) {
    i <= |ks| && (forall k :: k in ks[..i] ==> k in r) && InStepAt(m, p, r, ks[..i])
  }

  lemma ReachNone(m: Secrets, p: Secrets, r: Secrets, ks: seq<string>)
    ensures Reached(m, p, r, ks, 0)
  {
    assert ks[..0] == [] && Laid([], p) == {};
  }

  lemma ReachNext(m: Secrets, p: Secrets, r: Secrets, ks: seq<string>, i: nat)
    requires Setting(m, p, r, ks) && Reached(m, p, r, ks, i) && i < |ks|
    ensures Reached(m, p, r, ks, i + 1)
  {
    NextRow(ks, i);
    AdvanceOne(m, p, r, ks[..i], ks[i]);
  }

  lemma {:induction false} ReachAll(m: Secrets, p: Secrets, r: Secrets, ks: seq<string>, i: nat)
    requires Setting(m, p, r, ks) && i <= |ks|
    ensures Reached(m, p, r, ks, i)
  {
    if i == 0 {
      ReachNone(m, p, r, ks);
    } else {
      ReachAll(m, p, r, ks, i - 1);
      ReachNext(m, p, r, ks, i - 1);
    }
  }

  lemma {:induction false} SeparateKeeps(m: Secrets, p: Secrets)
    requires Healthy(m) && Separate(p)
    ensures KeepsRows(m, p) && Reading(m + p).pending == Reading(p).pending
  {
    var r := m + p;
    var ks := SortedKeys(r.Keys);
    ReachAll(m, p, r, ks, |ks|);
    ReachedEnd(m, p, r, ks);
    InStepKeeps(Reading(r), Reading(p), ks, m, p);
  }

  lemma ReachedEnd(m: Secrets, p: Secrets, r: Secrets, ks: seq<string>)
    requires ks == SortedKeys(r.Keys) && p.Keys <= r.Keys && Reached(m, p, r, ks, |ks|)
    ensures InStep(Reading(r), Reading(p), ks, m, p)
  {
    assert ks[..|ks|] == ks && Laid(ks, p) == p.Keys;
  }

  lemma InStepKeeps(a: Scan, b: Scan, ks: seq<string>, m: Secrets, p: Secrets)
    requires InStep(a, b, ks, m, p) && Names(b) <= p.Keys && forall k :: k in m ==> k in ks
    ensures forall e :: e !in p ==> SameEntry(m, Finish(a), e)
  {
    forall e | e !in p ensures SameEntry(m, Finish(a), e) {
      assert e !in Names(b);
    }
  }

  // ----- the condition is necessary -----

  lemma SwallowedAlike(scan: Scan, j: string, v: string)
    requires scan.pending.Some? && IsEnvKey(j)
    ensures Alike(RowScan(scan, j, v), scan)
  {
    OneRow(scan, j, v);
    RowSplits(Rust, j, v);
  }

  /** An environment name whose row comes while a block is open is lost. */
  lemma {:induction false} OpenBlockLoses(p: Secrets, j: string, m: Secrets)
    requires Names(Reading(p)) <= p.Keys && IsEnvKey(j) && j !in p && m == map[j := ""]
    requires Reading(Below(p, j)).pending.Some?
    ensures j !in Finish(Reading(m + p))
  {
    var s := Below(p, j).Keys;
    var a, b := SortedKeys(s), SortedKeys(p.Keys - s);
    SplitAt(p, j, m, s, a, b);
    ReadingBelow(p, j, s);
    SameRows(FRESH, a, m + p, p);
    var before := RowsScan(FRESH, a, p);
    RowsConcat(FRESH, a, [j] + b, m + p);
    RowsConcat(FRESH, a, b, p);
    assert ([j] + b)[1..] == b;
    SwallowedAlike(before, j, "");
    RowsAlike(RowScan(before, j, ""), before, b, m + p);
    SameRows(before, b, m + p, p);
  }

  lemma SplitAt(p: Secrets, j: string, m: Secrets, s: set<string>, a: seq<string>, b: seq<string>)
    requires j !in p && m.Keys == {j} && s == Below(p, j).Keys && a == SortedKeys(s) && b == SortedKeys(p.Keys - s)
    ensures SortedKeys(p.Keys) == a + b && SortedKeys((m + p).Keys) == a + ([j] + b)
  {
    var t := p.Keys - s;
    forall k | k in t ensures Less(j, k) { LessTotal(j, k); }
    forall k, l | k in s && l in t ensures Less(k, l) { LessTransitive(k, j, l); }
    assert (m + p).Keys == s + ({j} + t) && p.Keys == s + t;
    SortedConcat(s, t);
    SortedConcat({j}, t);
    SortedConcat(s, {j} + t);
    SortedOne(j);
  }

  lemma KeepsNeedsNames(p: Secrets)
    requires KeepsRows(map[], p)
    ensures Names(Reading(p)) <= p.Keys
  {
    assert map[] + p == p;
    forall e | e in Names(Reading(p)) ensures e in p {
      assert e !in p ==> SameEntry(map[], Finish(Reading(p)), e);
    }
  }

  lemma KeepsNeedsClosed(p: Secrets, j: string, m: Secrets)
    requires Names(Reading(p)) <= p.Keys && IsEnvKey(j) && j !in p && m == map[j := ""] && KeepsRows(m, p)
    ensures Reading(Below(p, j)).pending.None?
  {
    assert SameEntry(m, Finish(Reading(m + p)), j);
    if Reading(Below(p, j)).pending.Some? { OpenBlockLoses(p, j, m); }
  }

  lemma NoneIsHealthy()
    ensures Healthy(map[])
  {
  }

  lemma SmallIsHealthy(j: string)
    requires IsEnvKey(j)
    ensures Healthy(map[j := ""])
  {
  }

  lemma KeepsRowsExactly(p: Secrets)
    ensures (forall m :: Healthy(m) ==> KeepsRows(m, p)) <==> Separate(p)
  {
    if Separate(p) {
      forall m | Healthy(m) ensures KeepsRows(m, p) { SeparateKeeps(m, p); }
    } else if forall m :: Healthy(m) ==> KeepsRows(m, p) {
      NoneIsHealthy();
      KeepsNeedsNames(p);
      forall j | IsEnvKey(j) && j !in p ensures Reading(Below(p, j)).pending.None? {
        SmallIsHealthy(j);
        KeepsNeedsClosed(p, j, map[j := ""]);
      }
    }
  }

  /** Laying `p` over `m`, writing the file and reading it leaves every other entry as it is. */
  ghost predicate Keeps(m: Secrets, p: Secrets) {
    forall e :: e !in p ==> SameEntry(m, Parse(Render(m + p)), e)
  }

  /** Entries can be laid over every healthy file without touching another entry exactly when they are separate. */
  lemma {:induction false} KeepsExactly(p: Secrets)
    ensures (forall m :: Healthy(m) ==> Keeps(m, p)) <==> Separate(p)
  {
    KeepsRowsExactly(p);
    forall m ensures Keeps(m, p) <==> KeepsRows(m, p) { ScannedRows(m + p); }
  }
}
