/** Which imports leave the other entries of the file as they are. */
module ImportedNames {
  import opened Escaping
  import opened Imports
  import opened KeyOrder
  import opened ManagedKeys
  import opened Overlay
  import opened Persistence
  import opened RoundTrip
  import opened SecretsFile
  import opened Startup
  import opened Text
  import opened Wrappers
  import opened Writers

  // ----- the name under which a row is read -----

  function LastLine(k: string): string
    decreases |k|
  {
    var i := IndexOf(k, '\n');
    if i == |k| then k else LastLine(k[i + 1..])
  }

  /** What follows the last line feed, without white space around it. */
  function ReadsAs(k: string): string { Trim(Rust, LastLine(k)) }

  /** What reading a row does outside a block, whatever its name. */
  function ReadRow(found: Secrets, k: string, v: string): Scan {
    var e, w := ReadsAs(k), DropBare(Rust, v);
    if !IsEnvKey(e) then Scan(found, None)
    else if OpenPem(w) then Scan(found, Some(Pem(e, EscapeAll(w))))
    else Scan(found[e := w], None)
  }

  lemma {:induction false} TrimStartConcat(sp: Space, a: string, s: string)
    requires s != [] && !IsSpace(sp, s[0])
    ensures TrimStart(sp, a + s) == TrimStart(sp, a) + s
  {
    if a == [] {
      assert a + s == s;
    } else {
      assert (a + s)[1..] == a[1..] + s;
      TrimStartConcat(sp, a[1..], s);
    }
  }

  lemma TrimTwice(sp: Space, s: string)
    ensures Trim(sp, TrimStart(sp, s)) == Trim(sp, s)
    ensures TrimStart(sp, s) != [] ==> Trim(sp, s) != [] && Trim(sp, s)[0] == TrimStart(sp, s)[0]
  {
    TrimStartShape(sp, s);
  }

  /** The two sides of the first equals sign. */
  lemma LineSplits(l: string, v: string)
    requires '=' !in l
    ensures var line := Trim(Rust, l + "=" + EscapeAll(v));
      var eq := IndexOf(line, '=');
      && eq < |line| && (eq > 0 && line[0] == '#' ==> !IsEnvKey(Trim(Rust, l)))
      && (eq == 0 ==> line[0] == '=')
      && Trim(Rust, line[..eq]) == Trim(Rust, l) && Trim(Rust, line[eq + 1..]) == EscapeAll(DropBare(Rust, v))
  {
    var e, t := EscapeAll(v), TrimStart(Rust, l);
    assert l + "=" + e == l + ("=" + e) && t + ("=" + e) == (t + "=") + e;
    TrimStartConcat(Rust, l, "=" + e);
    TrimEndConcat(Rust, t + "=", e);
    var line := t + "=" + TrimEnd(Rust, e);
    assert Trim(Rust, l + "=" + e) == line;
    TrimKeepsOut(Rust, l, '=');
    assert forall i :: 0 <= i < |t| ==> line[i] == t[i] && t[i] in t;
    IndexOfUnique(line, '=', |t|);
    assert line[..|t|] == t && line[|t| + 1..] == TrimEnd(Rust, e);
    TrimTwice(Rust, l);
    TrimAfterTrimEnd(Rust, e);
    EscapeTrim(Rust, v);
    HashIsNoName(Trim(Rust, l));
  }

  lemma HashIsNoName(k: string)
    ensures k != [] && k[0] == '#' ==> !IsEnvKey(k)
  {
    if k != [] && k[0] == '#' { assert k[0] in k && !EnvChar(k[0]); }
  }

  lemma LineStep(found: Secrets, l: string, v: string)
    requires '=' !in l && '\n' !in l
    ensures Step(Scan(found, None), Row(l, v)) == ReadRow(found, l, v)
  {
    LineSplits(l, v);
    IndexOfUnique(l, '\n', |l|);
    var w := DropBare(Rust, v);
    EscapeOpenPem(w);
    UnescapeEscape(w);
  }

  lemma PieceStep(found: Secrets, piece: string)
    requires '=' !in piece
    ensures Step(Scan(found, None), StripCr(piece)) == Scan(found, None)
  {
    var raw := StripCr(piece);
    assert forall c :: c in raw ==> c in piece;
    TrimKeepsOut(Rust, raw, '=');
    var line := Trim(Rust, raw);
    assert '=' !in line;
    assert IndexOf(line, '=') == |line|;
  }

  lemma LastStep(scan: Scan, k: string, v: string)
    requires '\n' !in k
    ensures RowScan(scan, k, v) == Step(scan, Row(k, v))
  {
    var row, e := Row(k, v), EscapeAll(v);
    EscapeIsOneLine(v);
    assert row[|row| - 1] == if e == [] then '=' else e[|e| - 1];
    assert row + "\n" + "" == row + "\n";
    LinesFirst(row, "");
    assert Lines("") == [] && Lines(row + "\n") == [row];
    assert Run(scan, [row]) == Run(Step(scan, row), [row][1..]);
  }

  lemma SplitName(k: string, i: nat, rest: string)
    requires i < |k| && k[i] == '\n'
    ensures k + "=" + rest + "\n" == k[..i] + "\n" + (k[i + 1..] + "=" + rest + "\n")
  {
    assert k == k[..i] + "\n" + k[i + 1..];
  }

  lemma PieceLines(k: string, v: string, i: nat)
    requires i < |k| && k[i] == '\n' && '\n' !in k[..i]
    ensures Lines(Row(k, v) + "\n") == [StripCr(k[..i])] + Lines(Row(k[i + 1..], v) + "\n")
  {
    SplitName(k, i, EscapeAll(v));
    LinesFirst(k[..i], Row(k[i + 1..], v) + "\n");
  }

  /** A row whose name holds a line feed starts with a line of its own. */
  lemma PieceFirst(scan: Scan, k: string, v: string, i: nat)
    requires i == IndexOf(k, '\n') < |k|
    ensures RowScan(scan, k, v) == RowScan(Step(scan, StripCr(k[..i])), k[i + 1..], v)
  {
    var rest := Lines(Row(k[i + 1..], v) + "\n");
    PieceLines(k, v, i);
    assert ([StripCr(k[..i])] + rest)[1..] == rest;
  }

  lemma TailLacks(k: string, i: nat, c: char)
    requires i < |k| && c !in k
    ensures c !in k[..i] && c !in k[i + 1..]
  {
  }

  lemma {:induction false} RowReads(found: Secrets, k: string, v: string)
    requires '=' !in k
    ensures RowScan(Scan(found, None), k, v) == ReadRow(found, k, v)
    decreases |k|
  {
    var i := IndexOf(k, '\n');
    if i == |k| {
      assert '\n' !in k;
      LastStep(Scan(found, None), k, v);
      LineStep(found, k, v);
    } else {
      TailLacks(k, i, '=');
      PieceFirst(Scan(found, None), k, v, i);
      PieceStep(found, k[..i]);
      RowReads(found, k[i + 1..], v);
    }
  }

  // ----- names that close no block -----

  lemma ClosingContains(s: string, pat: string)
    requires pat <= TrimStart(Rust, s)
    ensures Contains(s, pat)
  {
    TrimStartShape(Rust, s);
    assert At(s, |s| - |TrimStart(Rust, s)|, pat);
    ContainsWhere(s, pat);
  }

  lemma PartContains(s: string, i: nat, j: nat, pat: string)
    requires i <= j <= |s| && Contains(s[i..j], pat)
    ensures Contains(s, pat)
  {
    ContainsWhere(s[i..j], pat);
    var n :| At(s[i..j], n, pat);
    assert s[i..][n..] == s[i + n..] && s[i..j][n..] == s[i + n..j];
    assert At(s, i + n, pat);
    ContainsWhere(s, pat);
  }

  lemma PrefixBefore(pat: string, t: string, rest: string)
    requires '=' !in pat && pat <= t + ("=" + rest)
    ensures pat <= t
  {
    assert forall i :: 0 <= i < |pat| ==> pat[i] in pat;
    assert (t + ("=" + rest))[|t|] == '=';
  }

  lemma LineCloses(l: string, v: string, pat: string)
    requires '=' !in pat && pat <= TrimStart(Rust, Row(l, v))
    ensures Contains(l, pat)
  {
    var rest := EscapeAll(v);
    assert Row(l, v) == l + ("=" + rest);
    TrimStartConcat(Rust, l, "=" + rest);
    PrefixBefore(pat, TrimStart(Rust, l), rest);
    ClosingContains(l, pat);
  }

  lemma PartsLack(k: string, i: nat, pat: string)
    requires i < |k| && !Contains(k, pat)
    ensures !Contains(StripCr(k[..i]), pat) && !Contains(k[i + 1..], pat)
  {
    var raw := StripCr(k[..i]);
    assert raw == k[0..|raw|] && k[i + 1..] == k[i + 1..|k|];
    if Contains(raw, pat) { PartContains(k, 0, |raw|, pat); }
    if Contains(k[i + 1..], pat) { PartContains(k, i + 1, |k|, pat); }
  }

  lemma {:induction false} StaysOpen(scan: Scan, k: string, v: string)
    requires scan.pending.Some? && !Contains(k, END)
    ensures RowScan(scan, k, v).pending.Some?
    decreases |k|
  {
    var i := IndexOf(k, '\n');
    if i == |k| {
      LastStep(scan, k, v);
      if END <= TrimStart(Rust, Row(k, v)) { LineCloses(k, v, END); }
    } else {
      var raw := StripCr(k[..i]);
      PieceFirst(scan, k, v, i);
      PartsLack(k, i, END);
      if END <= TrimStart(Rust, raw) { ClosingContains(raw, END); }
      StaysOpen(Step(scan, raw), k[i + 1..], v);
    }
  }

  // ----- all rows -----

  /** Read back, the row opens a PEM block and does not close it. */
  predicate Opens(k: string, v: string) { IsEnvKey(ReadsAs(k)) && OpenPem(DropBare(Rust, v)) }

  predicate NoneOpens(p: Secrets) {
    forall k :: k in p ==> !Opens(k, p[k])
  }

  predicate NoneCloses(p: Secrets) {
    forall k :: k in p ==> !Contains(k, END)
  }

  /** Whatever environment name one of the names reads as, it is itself among the names. */
  predicate ReadsWithin(p: Secrets) {
    forall k :: k in p && IsEnvKey(ReadsAs(k)) ==> ReadsAs(k) in p
  }

  /** Names an import can have: `set_var` takes no equals sign, and every prefix starts before Z. */
  predicate Importables(p: Secrets) {
    forall k :: k in p ==> k != [] && k[0] < 'Z' && '=' !in k
  }

  lemma {:induction false} ClosedRows(scan: Scan, ks: seq<string>, p: Secrets)
    requires scan.pending.None? && forall k :: k in ks ==> k in p && '=' !in k && !Opens(k, p[k])
    ensures var end := RowsScan(scan, ks, p);
      end.pending.None? && scan.found.Keys <= end.found.Keys
      && (forall k :: k in ks && IsEnvKey(ReadsAs(k)) ==> ReadsAs(k) in end.found)
      && (forall e :: e in end.found ==> e in scan.found || (IsEnvKey(e) && exists k :: k in ks && ReadsAs(k) == e))
    decreases ks
  {
    if ks != [] {
      RowReads(scan.found, ks[0], p[ks[0]]);
      assert scan == Scan(scan.found, None) && ks[0] in ks;
      ClosedRows(RowScan(scan, ks[0], p[ks[0]]), ks[1..], p);
    }
  }

  lemma {:induction false} OpenRows(scan: Scan, ks: seq<string>, p: Secrets)
    requires forall k :: k in ks ==> k in p && '=' !in k && !Contains(k, END)
    requires scan.pending.Some? || exists k :: k in ks && Opens(k, p[k])
    ensures RowsScan(scan, ks, p).pending.Some?
    decreases ks
  {
    if ks != [] {
      if scan.pending.Some? {
        StaysOpen(scan, ks[0], p[ks[0]]);
      } else {
        RowReads(scan.found, ks[0], p[ks[0]]);
        assert scan == Scan(scan.found, None);
      }
      OpenRows(RowScan(scan, ks[0], p[ks[0]]), ks[1..], p);
    }
  }

  lemma ReadsWithinNames(p: Secrets)
    requires Importables(p) && NoneOpens(p)
    ensures Names(Reading(p)) <= p.Keys <==> ReadsWithin(p)
    ensures Reading(p).pending.None?
  {
    var ks, end := SortedKeys(p.Keys), Reading(p);
    ClosedRows(FRESH, ks, p);
    if Names(end) <= p.Keys {
      forall k | k in p && IsEnvKey(ReadsAs(k)) ensures ReadsAs(k) in p {
        assert k in ks && ReadsAs(k) in end.found;
      }
    }
    if ReadsWithin(p) {
      forall e | e in end.found ensures e in p {
        var k :| k in ks && ReadsAs(k) == e;
      }
    }
  }

  lemma ClosedBelow(p: Secrets, j: string)
    requires Importables(p) && NoneOpens(p)
    ensures Reading(Below(p, j)).pending.None?
  {
    ClosedRows(FRESH, SortedKeys(Below(p, j).Keys), Below(p, j));
  }

  lemma AllBelowZ(p: Secrets)
    requires Importables(p)
    ensures IsEnvKey("Z") && "Z" !in p && Below(p, "Z") == p
  {
  }

  /** In terms of the names and values alone, as long as there is no block that a name could close. */
  lemma {:induction false} SeparateExactly(p: Secrets)
    requires Importables(p) && (NoneOpens(p) || NoneCloses(p))
    ensures Separate(p) <==> ReadsWithin(p) && NoneOpens(p)
  {
    if NoneOpens(p) {
      ReadsWithinNames(p);
      forall j ensures Reading(Below(p, j)).pending.None? { ClosedBelow(p, j); }
    } else {
      AllBelowZ(p);
      OpenRows(FRESH, SortedKeys(p.Keys), p);
    }
  }

  /** Laid over a healthy file, separate entries leave a file that can be read and written again. */
  lemma SeparateIsHealthy(m: Secrets, p: Secrets)
    requires Healthy(m) && Importables(p) && Separate(p)
    ensures Keeps(m, p) && Healthy(Parse(Render(m + p)))
  {
    AllBelowZ(p);
    SeparateKeeps(m, p);
    ScannedRows(m + p);
    KeepsExactly(p);
    ClosedFileIsHealthy(Render(m + p));
  }

  // ----- imports -----

  /** The entries of the bundle that are imported. */
  ghost function Part(bundle: map<string, string>, allow: bool): Secrets {
    map k | k in bundle && Imported(k, bundle[k], allow) :: bundle[k]
  }

  ghost predicate ImportPanics(bundle: map<string, string>, allow: bool) {
    exists k :: k in bundle && CannotSet(bundle, allow, k)
  }

  lemma ImportedStartsBeforeZ(k: string, v: string, allow: bool)
    requires Imported(k, v, allow)
    ensures k != [] && k[0] < 'Z' && (k[0] == 'D' ==> allow)
  {
    InternalKeysAreEnvKeys();
    if IsManaged(k) {
      ManagedIsOrdinary(k);
    } else if LLM_PREFIX <= k {
      assert k[0] == LLM_PREFIX[0] == 'L';
    } else {
      assert ADMIN_HASH[0] == 'D';
    }
  }

  lemma PartIsImportable(bundle: map<string, string>, allow: bool)
    requires !ImportPanics(bundle, allow)
    ensures Importables(Part(bundle, allow))
  {
    forall k | k in Part(bundle, allow) ensures k != [] && k[0] < 'Z' && '=' !in k {
      ImportedStartsBeforeZ(k, bundle[k], allow);
      assert !CannotSet(bundle, allow, k);
    }
  }

  lemma MergeLaysOver(m: Secrets, bundle: map<string, string>, allow: bool, ks: seq<string>)
    requires forall k :: k in ks <==> k in bundle
    ensures MergeInto(m, ks, bundle, allow) == m + Part(bundle, allow)
  {
    MergeOverlays(m, ks, bundle, allow);
  }

  lemma ImportWrites(m: Secrets, env: map<string, string>, bundle: map<string, string>, allow: bool, diskOk: bool)
    ensures var a := MergeAttempt(m, env, bundle, allow, diskOk);
      && (a.written <==> diskOk && !ImportPanics(bundle, allow))
      && (a.written ==> a.secrets == m + Part(bundle, allow) && a.reply == Done)
  {
    var all := SortedKeys(bundle.Keys);
    GetsToMembers(bundle, allow, all);
    MergeLaysOver(m, bundle, allow, all);
  }

  lemma ImportLeaves(store: Store, bundle: map<string, string>, allow: bool, diskOk: bool)
    ensures Apply(store, Merge(bundle, allow, diskOk)).file ==
      if ImportPanics(bundle, allow) || !diskOk then store.file
      else Some(Render(Stored(store.file) + Part(bundle, allow)))
  {
    ImportWrites(Stored(store.file), store.env, bundle, allow, diskOk);
  }

  /** The import leaves every entry of the file that it does not import as it is. */
  ghost predicate KeepsOthers(store: Store, bundle: map<string, string>, allow: bool) {
    forall e :: e !in Part(bundle, allow) ==>
      SameEntry(Stored(store.file), Stored(Apply(store, Merge(bundle, allow, true)).file), e)
  }

  /** On every healthy file an import keeps to the entries it takes exactly when it panics, and so writes nothing,
      or the entries it takes are separate. */
  lemma {:induction false} KeepsOthersExactly(bundle: map<string, string>, allow: bool)
    ensures (forall store: Store :: Healthy(Stored(store.file)) ==> KeepsOthers(store, bundle, allow)) <==>
      ImportPanics(bundle, allow) || Separate(Part(bundle, allow))
  {
    var p := Part(bundle, allow);
    KeepsExactly(p);
    forall store: Store
      ensures KeepsOthers(store, bundle, allow) <==> ImportPanics(bundle, allow) || Keeps(Stored(store.file), p)
    {
      KeepsOthersMeans(store, bundle, allow);
    }
    if forall store: Store :: Healthy(Stored(store.file)) ==> KeepsOthers(store, bundle, allow) {
      forall m | Healthy(m) ensures ImportPanics(bundle, allow) || Keeps(m, p) {
        var store := HealthyStore(m);
        assert KeepsOthers(store, bundle, allow);
      }
    }
  }

  lemma KeepsOthersMeans(store: Store, bundle: map<string, string>, allow: bool)
    ensures KeepsOthers(store, bundle, allow) <==>
      ImportPanics(bundle, allow) || Keeps(Stored(store.file), Part(bundle, allow))
  {
    ImportLeaves(store, bundle, allow, true);
  }

  lemma HealthyStore(m: Secrets) returns (store: Store)
    requires Healthy(m)
    ensures Stored(store.file) == m
  {
    HealthyRoundTrip(m);
    store := Store(Some(Render(m)), map[]);
  }

  /** Admissible values under environment names are separate. */
  lemma {:induction false} WellFormedIsSeparate(bundle: map<string, string>, allow: bool)
    requires WellFormed(Merge(bundle, allow, true)) && !ImportPanics(bundle, allow)
    ensures Separate(Part(bundle, allow))
  {
    var p := Part(bundle, allow);
    PartIsImportable(bundle, allow);
    forall k | k in p ensures ReadsAs(k) == k && !Opens(k, p[k]) {
      EnvKeyReadsAsItself(k);
      DropBareFixpoint(Rust, p[k]);
    }
    SeparateExactly(p);
  }

  lemma EnvKeyReadsAsItself(k: string)
    requires IsEnvKey(k)
    ensures ReadsAs(k) == k
  {
    EnvKeyIsPlain(Rust, k);
    IndexOfUnique(k, '\n', |k|);
  }

  // ----- an import that replaces an entry it does not take -----

  lemma LastLineOf(x: string, e: string)
    requires '\n' !in x && IsEnvKey(e)
    ensures ReadsAs(x + "\n" + e) == e
  {
    var k := x + "\n" + e;
    assert forall j :: 0 <= j < |x| ==> k[j] == x[j];
    IndexOfUnique(k, '\n', |x|);
    assert k[|x| + 1..] == e;
    EnvKeyReadsAsItself(e);
  }

  lemma SortedPair(e: string, k: string)
    requires e != [] && k != [] && e[0] < k[0]
    ensures SortedKeys({e, k}) == [e, k]
  {
    SortedUnique(SortedKeys({e, k}), [e, k]);
  }

  lemma TwoRows(scan: Scan, e: string, k: string, r: Secrets)
    requires e in r && k in r
    ensures RowsScan(scan, [e, k], r) == RowScan(RowScan(scan, e, r[e]), k, r[k])
  {
    assert [e] + [k] == [e, k] && [] + [e] == [e];
    RowsSnoc(scan, [e], k, r);
    RowsSnoc(scan, [], e, r);
  }

  lemma RowFound(found: Secrets, k: string, v: string, e: string)
    requires '=' !in k && ReadsAs(k) == e && IsEnvKey(e) && Admissible(v)
    ensures RowScan(Scan(found, None), k, v) == Scan(found[e := v], None)
  {
    RowReads(found, k, v);
    DropBareFixpoint(Rust, v);
  }

  lemma ReplacedByName(e: string, k: string, v0: string, v1: string, r: Secrets)
    requires IsEnvKey(e) && k != [] && e[0] < k[0] && '=' !in k && ReadsAs(k) == e
    requires Admissible(v0) && Admissible(v1) && r == map[e := v0, k := v1]
    ensures Finish(Reading(r)) == map[e := v1]
  {
    SortedPair(e, k);
    assert r.Keys == {e, k};
    TwoRows(FRESH, e, k, r);
    EnvKeyReadsAsItself(e);
    EnvKeyIsPlain(Rust, e);
    RowFound(map[], e, v0, e);
    RowFound(map[e := v0], k, v1, e);
  }

  lemma PlainName(x: string, e: string, v: string)
    requires '=' !in x && NUL !in x && IsEnvKey(e) && NUL !in v
    ensures Settable(x + "\n" + e, v)
  {
    assert forall c :: c in e ==> EnvChar(c);
  }

  /** No import takes the session key, and a restore does not take the password hash either. Under a name with a
      line feed it replaces them all the same, and says it succeeded. */
  lemma {:induction false} ImportReplacesOther(e: string, x: string, k: string, v0: string, v1: string, store: Store,
                                               bundle: map<string, string>)
    requires IsEnvKey(e) && e[0] < 'L' && LLM_PREFIX <= x && '\n' !in x && '=' !in x && NUL !in x
    requires Admissible(v0) && Admissible(v1) && v1 != [] && NUL !in v1
    requires k == x + "\n" + e && Stored(store.file) == map[e := v0] && bundle == map[k := v1]
    ensures e !in Part(bundle, false)
    ensures Stored(Apply(store, Merge(bundle, false, true)).file) == map[e := v1]
    ensures MergeAttempt(Stored(store.file), store.env, bundle, false, true).reply == Done
  {
    TakenName(e, x, k, v1);
    ImportWrites(Stored(store.file), store.env, bundle, false, true);
    ImportLeaves(store, bundle, false, true);
    Pair(e, k, v0, v1);
    ReplacedInFile(e, k, v0, v1, map[e := v0, k := v1]);
  }

  lemma Pair(e: string, k: string, v0: string, v1: string)
    requires e != k
    ensures map[e := v0] + map[k := v1] == map[e := v0, k := v1]
  {
  }

  lemma ReplacedInFile(e: string, k: string, v0: string, v1: string, r: Secrets)
    requires IsEnvKey(e) && k != [] && e[0] < k[0] && '=' !in k && ReadsAs(k) == e
    requires Admissible(v0) && Admissible(v1) && r == map[e := v0, k := v1]
    ensures Stored(Some(Render(r))) == map[e := v1]
  {
    ReplacedByName(e, k, v0, v1, r);
    ScannedRows(r);
  }

  lemma TakenName(e: string, x: string, k: string, v: string)
    requires IsEnvKey(e) && e[0] < 'L' && LLM_PREFIX <= x && '\n' !in x && '=' !in x && NUL !in x
    requires v != [] && NUL !in v && k == x + "\n" + e
    ensures Part(map[k := v], false) == map[k := v] && !ImportPanics(map[k := v], false)
    ensures ReadsAs(k) == e && k != [] && e[0] < k[0] && '=' !in k
  {
    LastLineOf(x, e);
    PlainName(x, e, v);
    StartsAlike(LLM_PREFIX, x, k, "\n" + e);
    TakenAlone(k, v);
  }

  lemma StartsAlike(pat: string, x: string, k: string, rest: string)
    requires pat <= x && pat != [] && k == x + rest
    ensures pat <= k && k[0] == pat[0]
  {
  }

  lemma TakenAlone(k: string, v: string)
    requires Imported(k, v, false) && Settable(k, v)
    ensures Part(map[k := v], false) == map[k := v] && !ImportPanics(map[k := v], false)
  {
  }
}
