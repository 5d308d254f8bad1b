/** What an imported configuration bundle does to the secrets file. */
module Imports {
  import opened Escaping
  import opened KeyOrder
  import opened Persistence
  import opened RoundTrip
  import opened SecretsFile
  import opened Writers

  /** `r` is `m` with the imported entries of the bundle laid over it. */
  ghost predicate Overlays(m: Secrets, r: Secrets, ks: seq<string>, bundle: map<string, string>, allow: bool)
    requires forall k :: k in ks ==> k in bundle
  {
    && (forall k :: k in r <==> k in m || (k in ks && Imported(k, bundle[k], allow)))
    && (forall k :: k in r ==> r[k] == if k in ks && Imported(k, bundle[k], allow) then bundle[k] else m[k])
  }

  lemma {:induction false} MergeOverlays(m: Secrets, ks: seq<string>, bundle: map<string, string>, allow: bool)
    requires forall k :: k in ks ==> k in bundle
    ensures Overlays(m, MergeInto(m, ks, bundle, allow), ks, bundle, allow)
    decreases ks
  {
    if ks != [] {
      var next := if Imported(ks[0], bundle[ks[0]], allow) then m[ks[0] := bundle[ks[0]]] else m;
      MergeOverlays(next, ks[1..], bundle, allow);
      assert forall k :: k in ks <==> k == ks[0] || k in ks[1..];
    }
  }

  /** Every imported entry has an environment name and a value that survives as a row of `r`. */
  ghost predicate Importable(r: Secrets, bundle: map<string, string>, allow: bool) {
    forall k :: k in bundle && Imported(k, bundle[k], allow) ==> IsEnvKey(k) && Survives(bundle[k], Greatest(k, r))
  }

  lemma OverlaidSurvives(m: Secrets, r: Secrets, ks: seq<string>, bundle: map<string, string>, allow: bool)
    requires Healthy(m) && (forall k :: k in ks <==> k in bundle) && Overlays(m, r, ks, bundle, allow)
    ensures EnvKeys(r) && Faithful(r) <==> Importable(r, bundle, allow)
  {
    if Importable(r, bundle, allow) {
      forall k | k in r ensures IsEnvKey(k) && Survives(r[k], Greatest(k, r)) {
        if k in m { assert IsEnvKey(k) && Admissible(m[k]); }
      }
    }
  }

  // ----- where an import panics -----

  /** Setting this entry in the environment panics. */
  predicate CannotSet(bundle: map<string, string>, allow: bool, k: string)
    requires k in bundle
  {
    Imported(k, bundle[k], allow) && !Settable(k, bundle[k])
  }

  /** The import gets to this key: no entry at or before it panics. */
  ghost predicate GetsTo(bundle: map<string, string>, allow: bool, k: string) {
    forall j :: j in bundle && CannotSet(bundle, allow, j) ==> Less(k, j)
  }

  lemma {:induction false} UntilPanicMembers(ks: seq<string>, bundle: map<string, string>, allow: bool, k: string)
    requires Ascending(ks) && (forall j :: j in ks ==> j in bundle) && k in ks
    ensures k in UntilPanic(ks, bundle, allow) <==> forall j :: j in ks && CannotSet(bundle, allow, j) ==> Less(k, j)
  {
    var first, rest, reached := ks[0], ks[1..], UntilPanic(ks, bundle, allow);
    assert forall j :: j in ks <==> j == first || j in rest;
    assert forall j :: j in rest ==> Less(first, j) by { HeadIsLeast(ks); }
    UntilPanicStep(ks, bundle, allow);
    if CannotSet(bundle, allow, first) {
      if k != first { LessAsymmetric(first, k); } else if Less(k, k) { LessAsymmetric(k, k); }
    } else if k != first {
      UntilPanicMembers(rest, bundle, allow, k);
      assert reached == [first] + UntilPanic(rest, bundle, allow);
    } else {
      assert reached[0] == first;
    }
  }

  lemma HeadIsLeast(ks: seq<string>)
    requires Ascending(ks) && ks != []
    ensures forall j :: j in ks[1..] ==> Less(ks[0], j)
  {
    forall j | j in ks[1..] ensures Less(ks[0], j) {
      var i :| 0 <= i < |ks[1..]| && ks[1..][i] == j;
      assert ks[i + 1] == j;
    }
  }

  lemma {:induction false} NoPanic(ks: seq<string>, bundle: map<string, string>, allow: bool)
    requires forall k :: k in ks ==> k in bundle && !CannotSet(bundle, allow, k)
    ensures UntilPanic(ks, bundle, allow) == ks
  {
    if ks != [] {
      NoPanic(ks[1..], bundle, allow);
      UntilPanicStep(ks, bundle, allow);
    }
  }

  /** The keys an import gets to; all of them exactly when none panics. */
  lemma GetsToMembers(bundle: map<string, string>, allow: bool, all: seq<string>)
    requires Ascending(all) && forall k :: k in all <==> k in bundle
    ensures var ks := UntilPanic(all, bundle, allow);
      && (forall k :: k in ks <==> k in bundle && GetsTo(bundle, allow, k))
      && (ks == all <==> forall k :: k in bundle ==> !CannotSet(bundle, allow, k))
  {
    var ks := UntilPanic(all, bundle, allow);
    forall k ensures k in ks <==> k in bundle && GetsTo(bundle, allow, k) {
      if k in all { UntilPanicMembers(all, bundle, allow, k); }
    }
    if forall k :: k in bundle ==> !CannotSet(bundle, allow, k) {
      NoPanic(all, bundle, allow);
    } else {
      var k :| k in bundle && CannotSet(bundle, allow, k);
      if GetsTo(bundle, allow, k) { LessAsymmetric(k, k); }
      assert k in all && k !in ks;
    }
  }

  /** The imported entries that are set before the import ends. */
  ghost predicate Sets(bundle: map<string, string>, allow: bool, k: string) {
    k in bundle && GetsTo(bundle, allow, k) && Imported(k, bundle[k], allow)
  }

  lemma EnvAfterImport(env: map<string, string>, bundle: map<string, string>, allow: bool, all: seq<string>)
    requires Ascending(all) && forall k :: k in all <==> k in bundle
    ensures var e := MergeInto(env, UntilPanic(all, bundle, allow), bundle, allow);
      && (forall k :: Sets(bundle, allow, k) ==> k in e && e[k] == bundle[k])
      && (forall k :: !Sets(bundle, allow, k) ==> SameEntry(env, e, k))
  {
    var ks := UntilPanic(all, bundle, allow);
    GetsToMembers(bundle, allow, all);
    MergeOverlays(env, ks, bundle, allow);
    OverlaysSets(env, MergeInto(env, ks, bundle, allow), ks, bundle, allow);
  }

  lemma OverlaysSets(env: map<string, string>, e: map<string, string>, ks: seq<string>, bundle: map<string, string>,
                     allow: bool)
    requires (forall k :: k in ks <==> k in bundle && GetsTo(bundle, allow, k)) && Overlays(env, e, ks, bundle, allow)
    ensures forall k :: Sets(bundle, allow, k) ==> k in e && e[k] == bundle[k]
    ensures forall k :: !Sets(bundle, allow, k) ==> SameEntry(env, e, k)
  {
    forall k | Sets(bundle, allow, k) ensures k in e && e[k] == bundle[k] {
      assert k in ks;
    }
    forall k | !Sets(bundle, allow, k) ensures SameEntry(env, e, k) {
      assert k in ks ==> !Imported(k, bundle[k], allow);
    }
  }

  /** An import panics exactly when some imported entry cannot be set; the file is then left alone, but the imported
      entries before the first such key are already in the environment. */
  lemma {:induction false} ImportPanicsExactly(store: Store, bundle: map<string, string>, allow: bool, diskOk: bool,
                                               a: Attempt)
    requires a == MergeAttempt(Stored(store.file), store.env, bundle, allow, diskOk)
    ensures a.reply == Reply.Crashed <==> exists k :: k in bundle && CannotSet(bundle, allow, k)
    ensures a.reply == Reply.Crashed ==> Commit(store, a).file == store.file
    ensures forall k :: Sets(bundle, allow, k) ==> k in a.env && a.env[k] == bundle[k]
    ensures forall k :: !Sets(bundle, allow, k) ==> SameEntry(store.env, a.env, k)
  {
    GetsToMembers(bundle, allow, SortedKeys(bundle.Keys));
    EnvAfterImport(store.env, bundle, allow, SortedKeys(bundle.Keys));
  }

  // ----- where an import reads back -----

  lemma OverlaysAll(m: Secrets, r: Secrets, bundle: map<string, string>, allow: bool, ks: seq<string>)
    requires Healthy(m) && ks == SortedKeys(bundle.Keys) && r == MergeInto(m, ks, bundle, allow)
    ensures Parse(Render(r)) == r <==> Importable(r, bundle, allow)
  {
    MergeOverlays(m, ks, bundle, allow);
    OverlaidSurvives(m, r, ks, bundle, allow);
    RoundTripExactly(r);
  }

  /** An import checks nothing but the names of its keys, so what it writes reads back exactly when it is importable. */
  lemma {:induction false} ImportReadsBackExactly(store: Store, bundle: map<string, string>, allow: bool)
    requires Healthy(Stored(store.file))
    ensures var a := MergeAttempt(Stored(store.file), store.env, bundle, allow, true);
      a.written ==> (Stored(Commit(store, a).file) == a.secrets <==> Importable(a.secrets, bundle, allow))
  {
    var m, a := Stored(store.file), MergeAttempt(Stored(store.file), store.env, bundle, allow, true);
    if a.written {
      WrittenMerge(m, store.env, bundle, allow);
      OverlaysAll(m, a.secrets, bundle, allow, SortedKeys(bundle.Keys));
    }
  }

  lemma WrittenMerge(m: Secrets, env: map<string, string>, bundle: map<string, string>, allow: bool)
    ensures var a := MergeAttempt(m, env, bundle, allow, true);
      a.written ==> a.secrets == MergeInto(m, SortedKeys(bundle.Keys), bundle, allow)
  {
  }
}
