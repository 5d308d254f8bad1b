/** When the environment of the running process shows what a restart would read from the file. */
module LiveEnv {
  import opened Imports
  import opened KeyOrder
  import opened ManagedKeys
  import opened Persistence
  import opened Refusals
  import opened RoundTrip
  import opened SecretsFile
  import opened Startup
  import opened Text
  import opened Wrappers
  import opened Writers

  /** The process sees every stored value, except the session key, which is only ever read from the file. */
  ghost predicate Shadows(secrets: Secrets, env: map<string, string>) {
    forall k :: k in secrets && k != SESSION_KEY ==> k in env && env[k] == secrets[k]
  }

  /** A step after which the environment is neither ahead of the file nor behind it. */
  ghost predicate Settled(env: map<string, string>, a: Attempt) {
    if a.written then a.reply == Done else a.env == env
  }

  /** At every key, nothing happened or the map and the environment now agree. */
  ghost predicate Mirrored(s: Secrets, e: map<string, string>, s': Secrets, e': map<string, string>) {
    forall k {:trigger MirroredAt(s, e, s', e', k)} :: MirroredAt(s, e, s', e', k)
  }

  ghost predicate MirroredAt(s: Secrets, e: map<string, string>, s': Secrets, e': map<string, string>, k: string) {
    (SameEntry(s, s', k) && SameEntry(e, e', k)) || SameEntry(s', e', k)
  }

  lemma PutOneMirrors(s: Secrets, e: map<string, string>, d: Draft, key: string, entry: Entry)
    requires Mirrored(s, e, d.secrets, d.env)
    ensures Mirrored(s, e, PutOne(d, key, entry).secrets, PutOne(d, key, entry).env)
  {
    var next := PutOne(d, key, entry);
    forall k ensures MirroredAt(s, e, next.secrets, next.env, k) {
      assert MirroredAt(s, e, d.secrets, d.env, k);
    }
  }

  lemma {:induction false} PutAllMirrors(s: Secrets, e: map<string, string>, d: Draft, ks: seq<string>,
                                         request: Request)
    requires Mirrored(s, e, d.secrets, d.env) && forall k :: k in ks ==> k in request
    ensures Mirrored(s, e, PutAll(d, ks, request).secrets, PutAll(d, ks, request).env)
    decreases ks
  {
    if ks != [] && d.reply == Done {
      PutOneMirrors(s, e, d, ks[0], request[ks[0]]);
      PutAllMirrors(s, e, PutOne(d, ks[0], request[ks[0]]), ks[1..], request);
    }
  }

  lemma InsertMirrors(s: Secrets, e: map<string, string>, s': Secrets, e': map<string, string>, key: string, v: string)
    requires Mirrored(s, e, s', e')
    ensures Mirrored(s, e, s'[key := v], e'[key := v])
  {
    var s2, e2 := s'[key := v], e'[key := v];
    forall k ensures MirroredAt(s, e, s2, e2, k) {
      assert MirroredAt(s, e, s', e', k);
    }
  }

  lemma {:induction false} MergeMirrors(s: Secrets, e: map<string, string>, s': Secrets, e': map<string, string>,
                                        ks: seq<string>, bundle: map<string, string>, allow: bool)
    requires Mirrored(s, e, s', e') && forall k :: k in ks ==> k in bundle
    ensures Mirrored(s, e, MergeInto(s', ks, bundle, allow), MergeInto(e', ks, bundle, allow))
    decreases ks
  {
    if ks != [] {
      if Imported(ks[0], bundle[ks[0]], allow) {
        InsertMirrors(s, e, s', e', ks[0], bundle[ks[0]]);
        MergeMirrors(s, e, s'[ks[0] := bundle[ks[0]]], e'[ks[0] := bundle[ks[0]]], ks[1..], bundle, allow);
      } else {
        MergeMirrors(s, e, s', e', ks[1..], bundle, allow);
      }
    }
  }

  lemma WithMirrors(s: Secrets, e: map<string, string>, s': Secrets, e': map<string, string>, key: string,
                    v: Option<string>)
    requires Mirrored(s, e, s', e')
    ensures Mirrored(s, e, With(s', key, v), With(e', key, v))
  {
    if v.Some? { InsertMirrors(s, e, s', e', key, v.value); }
  }

  /** What a writer puts on disk it also puts into the environment, and what it removes it removes from both. */
  lemma WriterMirrors(secrets: Secrets, env: map<string, string>, op: Op)
    requires !op.UseSessionKey? && !op.Restart?
    requires AttemptOf(secrets, env, op).written && AttemptOf(secrets, env, op).reply == Done
    ensures var a := AttemptOf(secrets, env, op); Mirrored(secrets, env, a.secrets, a.env)
  {
    assert Mirrored(secrets, env, secrets, env);
    match op
    case Put(credentials, _) =>
      var request := Judged(credentials);
      PutAllMirrors(secrets, env, Draft(secrets, env, 0, Done), SortedKeys(request.Keys), request);
    case SetAdmin(_, hash, _) => InsertMirrors(secrets, env, secrets, env, ADMIN_HASH, hash.value);
    case Autonomy(tier, kill, _) => AutonomyMirrors(secrets, env, tier, kill);
    case Merge(bundle, allow, _) =>
      MergeMirrors(secrets, env, secrets, env, UntilPanic(SortedKeys(bundle.Keys), bundle, allow), bundle, allow);
  }

  lemma AutonomyMirrors(secrets: Secrets, env: map<string, string>, tier: Option<int>, kill: Option<bool>)
    ensures var a := AutonomyAttempt(secrets, env, tier, kill, true); Mirrored(secrets, env, a.secrets, a.env)
  {
    assert Mirrored(secrets, env, secrets, env);
    var a := AutonomyAttempt(secrets, env, tier, kill, true);
    if a.reply == Done {
      var t, k := TierText(tier), KillText(kill);
      WithMirrors(secrets, env, secrets, env, TIER_KEY, t);
      WithMirrors(secrets, env, With(secrets, TIER_KEY, t), With(env, TIER_KEY, t), KILL_KEY, k);
    }
  }

  lemma MirrorKeepsShadow(s: Secrets, e: map<string, string>, s': Secrets, e': map<string, string>)
    requires Shadows(s, e) && Mirrored(s, e, s', e')
    ensures Shadows(s', e')
  {
    forall k | k in s' && k != SESSION_KEY ensures k in e' && e'[k] == s'[k] {
      assert MirroredAt(s, e, s', e', k);
    }
  }

  // ----- which calls leave the environment and the file together -----

  /** What a caller can check before a PUT: the disk takes it and no value is bad, or every entry that comes before
      the first bad one is inert. */
  ghost predicate PutSettles(secrets: Secrets, env: map<string, string>, credentials: map<string, string>,
                             diskOk: bool) {
    AllManaged(credentials) ==>
      || (diskOk && forall k :: k in credentials ==> !Bad(Judge(k, credentials[k])))
      || (forall k :: k in credentials && ComesFirst(credentials, k) ==>
        Inert(secrets, env, k, Judge(k, credentials[k])))
  }

  ghost predicate ComesFirst(credentials: map<string, string>, key: string) {
    forall j :: j in credentials && Bad(Judge(j, credentials[j])) ==> Less(key, j)
  }

  predicate Shows(env: map<string, string>, key: string, value: Option<string>) {
    value.Some? ==> key in env && env[key] == value.value
  }

  /** The same for an import: the disk takes it and every imported entry can be set, or every imported entry that
      is set before the import ends is already in the environment. */
  ghost predicate MergeSettles(env: map<string, string>, bundle: map<string, string>, allow: bool, diskOk: bool) {
    || (diskOk && forall k :: k in bundle ==> !CannotSet(bundle, allow, k))
    || (forall k :: Sets(bundle, allow, k) ==> k in env && env[k] == bundle[k])
  }

  /** The condition on a call, in terms of its arguments, the file and the environment before it. */
  ghost predicate Settles(secrets: Secrets, env: map<string, string>, op: Op) {
    match op
    case Put(credentials, diskOk) => PutSettles(secrets, env, credentials, diskOk)
    case SetAdmin(password, hash, diskOk) => ByteLength(password) >= 8 && hash.Some? && diskOk ==> NUL !in hash.value
    case UseSessionKey(_, _) => true
    case Autonomy(tier, kill, diskOk) =>
      || diskOk || (tier.Some? && !(1 <= tier.value <= 3))
      || (Shows(env, TIER_KEY, TierText(tier)) && Shows(env, KILL_KEY, KillText(kill)))
    case Merge(bundle, allow, diskOk) => MergeSettles(env, bundle, allow, diskOk)
    case Restart(_) => true
  }

  lemma ComesFirstIsReached(credentials: map<string, string>, request: Request, stop: Option<string>)
    requires request == Judged(credentials) && EndsAt(request, stop)
    ensures forall k :: ComesFirst(credentials, k) <==> Reached(stop, k)
  {
    assert forall j :: j in credentials ==> j in request && request[j] == Judge(j, credentials[j]);
    forall k ensures ComesFirst(credentials, k) <==> Reached(stop, k) {
      if stop.Some? && Less(k, stop.value) {
        forall j | j in credentials && Bad(Judge(j, credentials[j])) ensures Less(k, j) {
          assert j in request && Bad(request[j]);
          if j != stop.value { LessTransitive(k, stop.value, j); }
        }
      }
      if stop.None? {
        forall j | j in credentials ensures !Bad(Judge(j, credentials[j])) { assert j in request; }
      }
    }
  }

  lemma InertRequest(secrets: Secrets, env: map<string, string>, credentials: map<string, string>, request: Request,
                     stop: Option<string>)
    requires request == Judged(credentials) && EndsAt(request, stop)
    ensures AllInert(secrets, env, request, stop) <==>
      forall k :: k in credentials && ComesFirst(credentials, k) ==> Inert(secrets, env, k, Judge(k, credentials[k]))
    ensures stop.None? <==> forall k :: k in credentials ==> !Bad(Judge(k, credentials[k]))
  {
    ComesFirstIsReached(credentials, request, stop);
    assert forall k :: k in credentials ==> k in request && request[k] == Judge(k, credentials[k]);
    if AllInert(secrets, env, request, stop) {
      forall k | k in credentials && ComesFirst(credentials, k)
        ensures Inert(secrets, env, k, Judge(k, credentials[k]))
      {
        assert k in request && Reached(stop, k);
      }
    }
    if stop.None? {
      forall k | k in credentials ensures !Bad(Judge(k, credentials[k])) { assert k in request; }
    } else {
      assert stop.value in credentials && Bad(Judge(stop.value, credentials[stop.value]));
    }
  }

  lemma PutSettlesExactly(secrets: Secrets, env: map<string, string>, credentials: map<string, string>, diskOk: bool)
    requires AllManaged(credentials)
    ensures Settled(env, PutAttempt(secrets, env, credentials, diskOk)) <==>
      PutSettles(secrets, env, credentials, diskOk)
  {
    var request := Judged(credentials);
    var stop := RequestSettles(secrets, env, request, diskOk);
    InertRequest(secrets, env, credentials, request, stop);
  }

  lemma RequestSettles(secrets: Secrets, env: map<string, string>, request: Request, diskOk: bool)
    returns (stop: Option<string>)
    ensures EndsAt(request, stop)
    ensures Settled(env, PutRequest(secrets, env, request, diskOk)) <==>
      (diskOk && stop.None?) || AllInert(secrets, env, request, stop)
  {
    var d, ks := Draft(secrets, env, 0, Done), SortedKeys(request.Keys);
    var e := PutAll(d, ks, request);
    stop := RequestOutcome(d, request);
    EnvUnchangedExactly(d, e, request, stop);
    PutAllNoChange(d, ks, request);
  }

  lemma {:induction false} MergeSettlesExactly(secrets: Secrets, env: map<string, string>, bundle: map<string, string>,
                                               allow: bool, diskOk: bool)
    ensures Settled(env, MergeAttempt(secrets, env, bundle, allow, diskOk)) <==>
      MergeSettles(env, bundle, allow, diskOk)
  {
    var all := SortedKeys(bundle.Keys);
    var e := MergeInto(env, UntilPanic(all, bundle, allow), bundle, allow);
    GetsToMembers(bundle, allow, all);
    EnvAfterImport(env, bundle, allow, all);
    SetsNothingNew(env, e, bundle, allow);
  }

  lemma SetsNothingNew(env: map<string, string>, e: map<string, string>, bundle: map<string, string>, allow: bool)
    requires forall k :: Sets(bundle, allow, k) ==> k in e && e[k] == bundle[k]
    requires forall k :: !Sets(bundle, allow, k) ==> SameEntry(env, e, k)
    ensures e == env <==> forall k :: Sets(bundle, allow, k) ==> k in env && env[k] == bundle[k]
  {
    if forall k :: Sets(bundle, allow, k) ==> k in env && env[k] == bundle[k] {
      forall k ensures SameEntry(env, e, k) {
        if Sets(bundle, allow, k) { assert k in e && e[k] == bundle[k]; }
      }
      SameEverywhere(env, e);
    }
  }

  lemma AutonomySettlesExactly(secrets: Secrets, env: map<string, string>, tier: Option<int>, kill: Option<bool>,
                               diskOk: bool)
    ensures Settled(env, AutonomyAttempt(secrets, env, tier, kill, diskOk)) <==>
      Settles(secrets, env, Autonomy(tier, kill, diskOk))
  {
    assert TIER_KEY != KILL_KEY by { assert |TIER_KEY| == |KILL_KEY| && TIER_KEY[13] != KILL_KEY[13]; }
    WithShows(env, TIER_KEY, TierText(tier), KILL_KEY, KillText(kill));
  }

  lemma WithShows(env: map<string, string>, k: string, v: Option<string>, l: string, w: Option<string>)
    requires k != l
    ensures With(With(env, k, v), l, w) == env <==> Shows(env, k, v) && Shows(env, l, w)
  {
    var e := With(With(env, k, v), l, w);
    assert v.Some? ==> k in e && e[k] == v.value;
    assert w.Some? ==> l in e && e[l] == w.value;
  }

  /** A call leaves the environment and the file together exactly under the condition on it. */
  lemma {:induction false} SettledExactly(secrets: Secrets, env: map<string, string>, op: Op)
    requires !op.Restart?
    ensures Settled(env, AttemptOf(secrets, env, op)) <==> Settles(secrets, env, op)
  {
    match op
    case Put(credentials, diskOk) =>
      if AllManaged(credentials) { PutSettlesExactly(secrets, env, credentials, diskOk); }
    case SetAdmin(_, _, _) =>
    case UseSessionKey(_, _) =>
    case Autonomy(tier, kill, diskOk) => AutonomySettlesExactly(secrets, env, tier, kill, diskOk);
    case Merge(bundle, allow, diskOk) => MergeSettlesExactly(secrets, env, bundle, allow, diskOk);
  }

  // ----- whole runs -----

  /** The calls that settle whatever the file and the environment hold: the disk takes them and they are not
      refused halfway. */
  ghost predicate Clean(op: Op) {
    match op
    case Put(credentials, diskOk) =>
      AllManaged(credentials) ==> diskOk && forall k :: k in credentials ==> !Bad(Judge(k, credentials[k]))
    case Autonomy(tier, _, diskOk) => diskOk || (tier.Some? && !(1 <= tier.value <= 3))
    case Merge(bundle, allow, diskOk) => diskOk && forall k :: k in bundle ==> !CannotSet(bundle, allow, k)
    case _ => true
  }

  lemma CleanSettles(secrets: Secrets, env: map<string, string>, op: Op)
    requires Clean(op) && WellFormed(op)
    ensures Settles(secrets, env, op)
  {
  }

  lemma {:induction false} AttemptKeepsShadow(secrets: Secrets, env: map<string, string>, op: Op, a: Attempt)
    requires Shadows(secrets, env) && a == AttemptOf(secrets, env, op)
    requires if op.Restart? then AllSettable(secrets) else Settled(env, a)
    ensures Shadows(if a.written then a.secrets else secrets, a.env)
  {
    if op.Restart? {
      LoadedAll(secrets);
    } else if a.written && !op.UseSessionKey? {
      WriterMirrors(secrets, env, op);
      MirrorKeepsShadow(secrets, env, a.secrets, a.env);
    }
  }

  lemma {:induction false} IdealShadows(i: Ideal, ops: seq<Op>)
    requires Shadows(i.secrets, i.env) && AllSettable(i.secrets)
    requires forall op :: op in ops ==> WellFormed(op) && Clean(op)
    ensures Shadows(IdealRun(i, ops).secrets, IdealRun(i, ops).env)
    decreases |ops|
  {
    if ops != [] {
      var init, op := ops[..|ops| - 1], ops[|ops| - 1];
      assert op in ops && forall o :: o in init ==> o in ops;
      var before := IdealRun(i, init);
      IdealShadows(i, init);
      IdealSettable(i, init);
      CleanSettles(before.secrets, before.env, op);
      if !op.Restart? { SettledExactly(before.secrets, before.env, op); }
      AttemptKeepsShadow(before.secrets, before.env, op, AttemptOf(before.secrets, before.env, op));
    }
  }

  /** Every process that starts at all starts so. */
  lemma RestartShadows(secrets: Secrets, launchEnv: map<string, string>)
    requires RestartAttempt(secrets, launchEnv).reply == Done
    ensures Shadows(secrets, RestartAttempt(secrets, launchEnv).env)
  {
    LoadedAll(secrets);
  }

  /** Over every run of clean calls and restarts, the running process sees exactly the values that a restart would
      give it. */
  lemma {:induction false} EnvShadowsFile(store: Store, ops: seq<Op>)
    requires Healthy(Stored(store.file)) && AllSettable(Stored(store.file)) && Shadows(Stored(store.file), store.env)
    requires forall op :: op in ops ==> WellFormed(op) && Clean(op)
    ensures Shadows(Stored(RunOps(store, ops).file), RunOps(store, ops).env)
  {
    RunRefinesIdeal(store, ops);
    IdealShadows(Ideal(Stored(store.file), store.env), ops);
  }

  /** An instance: a kill switch whose write fails is on in the process and not on file. */
  lemma FailedWriteRunsAhead(secrets: Secrets, env: map<string, string>)
    requires KILL_KEY in secrets && KILL_KEY in env && secrets[KILL_KEY] == env[KILL_KEY] == "0"
    ensures var a := AutonomyAttempt(secrets, env, None, Some(true), false);
      a.reply == Failed && !Settled(env, a) && !Shadows(secrets, a.env)
  {
  }
}
