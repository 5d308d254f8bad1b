/** Loading the secrets file when the program starts. */
module Startup {
  import opened Escaping
  import opened KeyOrder
  import opened ManagedKeys
  import opened Persistence
  import opened RoundTrip
  import opened SecretsFile
  import opened Text
  import opened Tokens
  import opened Wrappers
  import opened Writers

  // ----- no writer stores what a restart cannot set -----

  lemma OrdinaryIsSettable(k: string, v: string)
    requires IsEnvKey(k)
    ensures Settable(k, v) <==> NUL !in v
  {
    assert forall c :: c in k ==> EnvChar(c);
  }

  lemma {:induction false} PutAllSettable(d: Draft, ks: seq<string>, request: Request)
    requires AllSettable(d.secrets) && forall k :: k in ks ==> k in request
    requires forall k :: k in request && request[k].Keep? ==> Settable(k, request[k].value)
    ensures AllSettable(PutAll(d, ks, request).secrets)
    decreases ks
  {
    if ks != [] && d.reply == Done { PutAllSettable(PutOne(d, ks[0], request[ks[0]]), ks[1..], request); }
  }

  lemma JudgedIsSettable(credentials: map<string, string>, k: string)
    requires AllManaged(credentials) && k in credentials && Judge(k, credentials[k]).Keep?
    ensures Settable(k, Judge(k, credentials[k]).value)
  {
    assert IsManaged(k);
    ManagedIsOrdinary(k);
    OrdinaryIsSettable(k, Judge(k, credentials[k]).value);
  }

  lemma {:induction false} MergeSettable(m: Secrets, ks: seq<string>, bundle: map<string, string>, allow: bool)
    requires AllSettable(m) && forall k :: k in ks ==> k in bundle
    ensures AllSettable(MergeInto(m, UntilPanic(ks, bundle, allow), bundle, allow))
    decreases ks
  {
    var reached := UntilPanic(ks, bundle, allow);
    if reached != [] {
      UntilPanicStep(ks, bundle, allow);
      var next := if Imported(ks[0], bundle[ks[0]], allow) then m[ks[0] := bundle[ks[0]]] else m;
      assert reached[1..] == UntilPanic(ks[1..], bundle, allow);
      MergeSettable(next, ks[1..], bundle, allow);
    }
  }

  lemma SettableInsert(m: Secrets, k: string, v: string)
    requires AllSettable(m) && IsEnvKey(k) && NUL !in v
    ensures AllSettable(m[k := v])
  {
    OrdinaryIsSettable(k, v);
  }

  lemma HexIsSettable(v: string)
    requires forall i :: 0 <= i < |v| ==> HexChar(v[i])
    ensures NUL !in v
  {
  }

  lemma AutonomySettable(secrets: Secrets, env: map<string, string>, tier: Option<int>, kill: Option<bool>,
                         diskOk: bool)
    requires AllSettable(secrets)
    ensures AllSettable(AutonomyAttempt(secrets, env, tier, kill, diskOk).secrets)
  {
    InternalKeysAreEnvKeys();
    var s := secrets;
    if tier.Some? && 1 <= tier.value <= 3 {
      ParseDecimalNat(tier.value);
      HexIsSettable(Decimal(tier.value));
      SettableInsert(s, TIER_KEY, Decimal(tier.value));
      s := s[TIER_KEY := Decimal(tier.value)];
    }
    if kill.Some? { SettableInsert(s, KILL_KEY, if kill.value then "1" else "0"); }
  }

  /** Password hashes are text. Nothing is asked of imports. */
  predicate HashIsText(op: Op) {
    op.SetAdmin? && op.hash.Some? ==> NUL !in op.hash.value
  }

  /** No writer wants a value on disk that the next start could not set. */
  lemma {:induction false} AttemptIsSettable(secrets: Secrets, env: map<string, string>, op: Op)
    requires AllSettable(secrets) && HashIsText(op)
    ensures AllSettable(AttemptOf(secrets, env, op).secrets)
  {
    match op
    case Put(credentials, _) =>
      if AllManaged(credentials) {
        var request := Judged(credentials);
        forall k | k in request && request[k].Keep? ensures Settable(k, request[k].value) {
          JudgedIsSettable(credentials, k);
        }
        PutAllSettable(Draft(secrets, env, 0, Done), SortedKeys(request.Keys), request);
      }
    case SetAdmin(_, hash, _) =>
      InternalKeysAreEnvKeys();
      if hash.Some? { SettableInsert(secrets, ADMIN_HASH, hash.value); }
    case UseSessionKey(random, _) =>
      InternalKeysAreEnvKeys();
      HexEncodeIsHex(random);
      HexIsSettable(HexEncode(random));
      SettableInsert(secrets, SESSION_KEY, HexEncode(random));
    case Autonomy(tier, kill, diskOk) => AutonomySettable(secrets, env, tier, kill, diskOk);
    case Merge(bundle, allow, _) => MergeSettable(secrets, SortedKeys(bundle.Keys), bundle, allow);
    case Restart(_) =>
  }

  lemma {:induction false} IdealSettable(i: Ideal, ops: seq<Op>)
    requires AllSettable(i.secrets) && forall op :: op in ops ==> HashIsText(op)
    ensures AllSettable(IdealRun(i, ops).secrets)
  {
    if ops != [] {
      var init, last := ops[..|ops| - 1], ops[|ops| - 1];
      assert last in ops && forall op :: op in init ==> op in ops;
      IdealSettable(i, init);
      AttemptIsSettable(IdealRun(i, init).secrets, IdealRun(i, init).env, last);
    }
  }

  // ----- text without NUL -----

  lemma TrimKeepsOut(sp: Space, s: string, c: char)
    requires c !in s
    ensures c !in TrimStart(sp, s) && c !in TrimEnd(sp, s) && c !in Trim(sp, s)
  {
    TrimStartShape(sp, s);
    TrimEndShape(sp, s);
    TrimEndShape(sp, TrimStart(sp, s));
  }

  lemma {:induction false} UnescapeKeepsNulOut(v: string)
    requires NUL !in v
    ensures NUL !in Unescape(v)
  {
    if v != [] {
      assert forall c :: c in v[1..] ==> c in v;
      if v[0] != '\\' {
        UnescapeKeepsNulOut(v[1..]);
      } else if |v| > 1 {
        assert v[1] in v && forall c :: c in v[2..] ==> c in v;
        UnescapeKeepsNulOut(v[2..]);
      }
    }
  }

  lemma {:induction false} EscapeKeepsNulOut(v: string)
    requires NUL !in v
    ensures NUL !in EscapeAll(v)
  {
    if v != [] {
      assert v[0] in v && forall c :: c in v[1..] ==> c in v;
      EscapeKeepsNulOut(v[1..]);
    }
  }

  lemma {:induction false} LinesKeepNulOut(s: string)
    requires NUL !in s
    ensures forall l :: l in Lines(s) ==> NUL !in l
  {
    var i := IndexOf(s, '\n');
    if s != [] && i < |s| {
      assert forall c :: c in s[i + 1..] || c in StripCr(s[..i]) ==> c in s;
      LinesKeepNulOut(s[i + 1..]);
    }
  }

  ghost predicate NoNul(scan: Scan) {
    && (forall k :: k in scan.found ==> NUL !in scan.found[k])
    && (scan.pending.Some? ==> NUL !in scan.pending.value.text)
  }

  lemma StepKeepsNulOut(scan: Scan, raw: string)
    requires NoNul(scan) && NUL !in raw
    ensures NoNul(Step(scan, raw))
  {
    TrimKeepsOut(Rust, raw, NUL);
    if scan.pending.None? {
      var line := Trim(Rust, raw);
      var eq := IndexOf(line, '=');
      if eq < |line| {
        assert forall c :: c in line[eq + 1..] ==> c in line;
        TrimKeepsOut(Rust, line[eq + 1..], NUL);
        UnescapeKeepsNulOut(Trim(Rust, line[eq + 1..]));
      }
    }
  }

  lemma {:induction false} RunKeepsNulOut(scan: Scan, lines: seq<string>)
    requires NoNul(scan) && forall l :: l in lines ==> NUL !in l
    ensures NoNul(Run(scan, lines))
    decreases lines
  {
    if lines != [] {
      StepKeepsNulOut(scan, lines[0]);
      RunKeepsNulOut(Step(scan, lines[0]), lines[1..]);
    }
  }

  /** Whatever a file without NUL is read into can be set. */
  lemma {:induction false} ParseIsSettable(text: string)
    requires NUL !in text
    ensures AllSettable(Parse(text))
  {
    LinesKeepNulOut(text);
    RunKeepsNulOut(FRESH, Lines(text));
    RunSound(FRESH, Lines(text));
    forall k | k in Parse(text) ensures Settable(k, Parse(text)[k]) {
      OrdinaryIsSettable(k, Parse(text)[k]);
    }
  }

  lemma {:induction false} RowsKeepNulOut(ks: seq<string>, m: Secrets)
    requires AllSettable(m) && forall k :: k in ks ==> k in m
    ensures NUL !in RenderRows(ks, m)
  {
    if ks != [] {
      assert Settable(ks[0], m[ks[0]]);
      EscapeKeepsNulOut(m[ks[0]]);
      RowsKeepNulOut(ks[1..], m);
    }
  }

  lemma UnderKeepsNulOut(title: string, warning: string, m: Secrets)
    requires Comment(title) && Comment(warning) && AllSettable(m)
    ensures NUL !in RenderUnder(title, warning, m)
  {
    RowsKeepNulOut(SortedKeys(m.Keys), m);
    assert LineBreak(NUL);
  }

  /** What can be set can be set again after writing and reading, even if reading changes it. */
  lemma {:induction false} RereadIsSettable(m: Secrets)
    requires AllSettable(m)
    ensures AllSettable(Parse(Render(m)))
  {
    TitleIsComment();
    WarningIsComment();
    UnderKeepsNulOut(TITLE, WARNING, m);
    ParseIsSettable(Render(m));
  }

  lemma {:induction false} RunStaysSettable(store: Store, ops: seq<Op>)
    requires AllSettable(Stored(store.file)) && forall op :: op in ops ==> HashIsText(op)
    ensures AllSettable(Stored(RunOps(store, ops).file))
  {
    if ops != [] {
      var init, last := ops[..|ops| - 1], ops[|ops| - 1];
      assert last in ops && forall op :: op in init ==> op in ops;
      RunStaysSettable(store, init);
      ApplyStaysSettable(RunOps(store, init), last);
    }
  }

  lemma {:induction false} ApplyStaysSettable(store: Store, op: Op)
    requires AllSettable(Stored(store.file)) && HashIsText(op)
    ensures AllSettable(Stored(Apply(store, op).file))
  {
    var a := AttemptOf(Stored(store.file), store.env, op);
    AttemptIsSettable(Stored(store.file), store.env, op);
    RereadIsSettable(a.secrets);
  }

  /** After every run from a file that could be loaded, whatever was imported, the file can be loaded again: the
      program starts. */
  lemma {:induction false} RestartSucceeds(store: Store, ops: seq<Op>, launchEnv: map<string, string>)
    requires AllSettable(Stored(store.file)) && forall op :: op in ops ==> HashIsText(op)
    ensures var a := RestartAttempt(Stored(RunOps(store, ops).file), launchEnv);
      a.reply == Done && a.env == launchEnv + Stored(RunOps(store, ops).file)
  {
    RunStaysSettable(store, ops);
    LoadedAll(Stored(RunOps(store, ops).file));
  }

  // ----- a PUT and a restart -----

  lemma RebornEntry(launchEnv: map<string, string>, d: Draft, e: Draft, key: string, entry: Entry)
    requires Applied(d, e, key, entry)
    ensures match entry
      case Keep(v) => key in e.secrets && key in e.env && (launchEnv + e.secrets)[key] == e.env[key] == v
      case _ => SameEntry(launchEnv, launchEnv + e.secrets, key)
  {
  }

  lemma RebornEntries(launchEnv: map<string, string>, d: Draft, e: Draft, credentials: map<string, string>)
    requires forall k :: k in credentials ==> Applied(d, e, k, Judge(k, credentials[k]))
    requires forall k :: k !in credentials ==> Untouched(d, e, k)
    ensures forall k :: k in credentials ==>
      match Judge(k, credentials[k])
      case Keep(v) => k in e.secrets && k in e.env && (launchEnv + e.secrets)[k] == e.env[k] == v
      case _ => SameEntry(launchEnv, launchEnv + e.secrets, k)
    ensures forall k :: k !in credentials ==> SameEntry(launchEnv + d.secrets, launchEnv + e.secrets, k)
  {
    forall k | k in credentials
      ensures match Judge(k, credentials[k])
        case Keep(v) => k in e.secrets && k in e.env && (launchEnv + e.secrets)[k] == e.env[k] == v
        case _ => SameEntry(launchEnv, launchEnv + e.secrets, k)
    {
      RebornEntry(launchEnv, d, e, k, Judge(k, credentials[k]));
    }
    forall k | k !in credentials ensures SameEntry(launchEnv + d.secrets, launchEnv + e.secrets, k) {
      assert Untouched(d, e, k);
    }
  }

  /** Whatever environment the next process is launched with, it starts and ends up with exactly the values the
      PUT put into the environment of this one. */
  lemma {:induction false} PutSurvivesRestart(store: Store, credentials: map<string, string>, diskOk: bool,
                                              launchEnv: map<string, string>, after: Store, reborn: Store)
    requires Healthy(Stored(store.file)) && AllSettable(Stored(store.file))
    requires PutAttempt(Stored(store.file), store.env, credentials, diskOk).reply == Done
    requires after == Apply(store, Put(credentials, diskOk)) && reborn == Apply(after, Restart(launchEnv))
    ensures RestartAttempt(Stored(after.file), launchEnv).reply == Done && reborn.file == after.file
    ensures forall k :: k in credentials ==>
      match Judge(k, credentials[k])
      case Keep(v) => k in reborn.env && k in after.env && reborn.env[k] == after.env[k] == v
      case _ => SameEntry(launchEnv, reborn.env, k)
    ensures forall k :: k !in credentials ==> SameEntry(launchEnv + Stored(store.file), reborn.env, k)
  {
    PutTakesEffect(store, credentials, diskOk, after);
    var op := Put(credentials, diskOk);
    ApplyRefines(store, op);
    AttemptIsSettable(Stored(store.file), store.env, op);
    LoadedAll(Stored(after.file));
    var d, e := Draft(Stored(store.file), store.env, 0, Done), Draft(Stored(after.file), after.env, 0, Done);
    assert reborn == Store(after.file, launchEnv + e.secrets);
    RebornEntries(launchEnv, d, e, credentials);
  }
}
