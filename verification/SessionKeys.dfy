/** How long a session key on file, and a token signed with it, stay usable. */
module SessionKeys {
  import opened Escaping
  import opened ImportedNames
  import opened KeyOrder
  import opened ManagedKeys
  import opened Overlay
  import opened Persistence
  import opened RoundTrip
  import opened SecretsFile
  import opened Text
  import opened Tokens
  import opened Wrappers
  import opened Writers

  /** What a call must not do: store a password hash that opens a PEM block, or import entries that do not keep to
      themselves. Nothing more is asked of what comes from outside. */
  ghost predicate Harmless(op: Op) {
    match op
    case SetAdmin(_, hash, _) => hash.Some? ==> !OpenPem(DropBare(Rust, hash.value))
    case UseSessionKey(random, _) => |random| == 32
    case Merge(bundle, allow, _) => ImportPanics(bundle, allow) || Separate(Part(bundle, allow))
    case _ => true
  }

  lemma {:induction false} PutAllKeeps(d: Draft, ks: seq<string>, request: Request, key: string)
    requires key !in ks && forall k :: k in ks ==> k in request
    ensures SameEntry(d.secrets, PutAll(d, ks, request).secrets, key)
    decreases ks
  {
    if ks != [] && d.reply == Done { PutAllKeeps(PutOne(d, ks[0], request[ks[0]]), ks[1..], request, key); }
  }

  lemma PutKeepsSessionKey(secrets: Secrets, env: map<string, string>, credentials: map<string, string>, diskOk: bool)
    ensures SameEntry(secrets, PutAttempt(secrets, env, credentials, diskOk).secrets, SESSION_KEY)
  {
    if AllManaged(credentials) {
      var request := Judged(credentials);
      var ks := SortedKeys(request.Keys);
      assert SESSION_KEY !in ks by {
        if SESSION_KEY in ks {
          ManagedIsOrdinary(SESSION_KEY);
          InternalKeysAreEnvKeys();
        }
      }
      PutAllKeeps(Draft(secrets, env, 0, Done), ks, request, SESSION_KEY);
    }
  }

  lemma AttemptKeepsSessionKey(secrets: Secrets, env: map<string, string>, op: Op)
    requires UsableKey(secrets).Some? && !op.Merge?
    ensures SameEntry(secrets, AttemptOf(secrets, env, op).secrets, SESSION_KEY)
  {
    match op
    case Put(credentials, diskOk) => PutKeepsSessionKey(secrets, env, credentials, diskOk);
    case _ => InternalKeysAreEnvKeys();
  }

  lemma AloneIsSeparate(k: string, v: string)
    requires IsEnvKey(k) && k[0] < 'Z' && !OpenPem(DropBare(Rust, v))
    ensures Importables(map[k := v]) && Separate(map[k := v])
  {
    EnvKeyIsPlain(Rust, k);
    EnvKeyReadsAsItself(k);
    SeparateExactly(map[k := v]);
  }

  lemma OverlayKeepsSessionKey(m: Secrets, p: Secrets)
    requires Healthy(m) && Importables(p) && Separate(p) && SESSION_KEY !in p
    ensures SameEntry(m, Parse(Render(m + p)), SESSION_KEY) && Healthy(Parse(Render(m + p)))
  {
    SeparateIsHealthy(m, p);
  }

  lemma AdminKeepsSessionKey(store: Store, password: string, hash: Option<string>, diskOk: bool)
    requires Healthy(Stored(store.file)) && Harmless(SetAdmin(password, hash, diskOk))
    ensures var after := Stored(Apply(store, SetAdmin(password, hash, diskOk)).file);
      SameEntry(Stored(store.file), after, SESSION_KEY) && Healthy(after)
  {
    var m := Stored(store.file);
    var a := AdminAttempt(m, store.env, password, hash, diskOk);
    if a.written {
      assert a.secrets == m[ADMIN_HASH := hash.value];
      HashKeepsSessionKey(m, hash.value);
    }
  }

  lemma HashKeepsSessionKey(m: Secrets, hash: string)
    requires Healthy(m) && !OpenPem(DropBare(Rust, hash))
    ensures var after := Parse(Render(m[ADMIN_HASH := hash])); SameEntry(m, after, SESSION_KEY) && Healthy(after)
  {
    InternalKeysAreEnvKeys();
    EntryKeepsSessionKey(m, ADMIN_HASH, hash);
  }

  lemma EntryKeepsSessionKey(m: Secrets, k: string, v: string)
    requires Healthy(m) && IsEnvKey(k) && k[0] < 'Z' && k != SESSION_KEY && !OpenPem(DropBare(Rust, v))
    ensures var after := Parse(Render(m[k := v])); SameEntry(m, after, SESSION_KEY) && Healthy(after)
  {
    assert m[k := v] == m + map[k := v];
    AloneIsSeparate(k, v);
    OverlayKeepsSessionKey(m, map[k := v]);
  }

  lemma ImportKeepsSessionKey(store: Store, bundle: map<string, string>, allow: bool, diskOk: bool)
    requires Healthy(Stored(store.file)) && Harmless(Merge(bundle, allow, diskOk))
    ensures var after := Stored(Apply(store, Merge(bundle, allow, diskOk)).file);
      SameEntry(Stored(store.file), after, SESSION_KEY) && Healthy(after)
  {
    ImportLeaves(store, bundle, allow, diskOk);
    if !ImportPanics(bundle, allow) && diskOk {
      PartIsImportable(bundle, allow);
      SessionKeyIsNotTaken(bundle, allow);
      OverlayKeepsSessionKey(Stored(store.file), Part(bundle, allow));
    }
  }

  lemma SessionKeyIsNotTaken(bundle: map<string, string>, allow: bool)
    ensures SESSION_KEY !in Part(bundle, allow)
  {
    InternalKeysAreEnvKeys();
    assert LLM_PREFIX[0] == 'L';
    if IsManaged(SESSION_KEY) { ManagedIsOrdinary(SESSION_KEY); }
  }

  /** No harmless call changes a usable session key on file. */
  lemma {:induction false} ApplyKeepsSessionKey(store: Store, op: Op)
    requires Healthy(Stored(store.file)) && UsableKey(Stored(store.file)).Some? && Harmless(op)
    ensures SameEntry(Stored(store.file), Stored(Apply(store, op).file), SESSION_KEY)
    ensures Healthy(Stored(Apply(store, op).file))
  {
    match op
    case SetAdmin(password, hash, diskOk) => AdminKeepsSessionKey(store, password, hash, diskOk);
    case Merge(bundle, allow, diskOk) => ImportKeepsSessionKey(store, bundle, allow, diskOk);
    case _ =>
      ApplyRefines(store, op);
      AttemptKeepsSessionKey(Stored(store.file), store.env, op);
  }

  /** Over every run of harmless calls and restarts the file keeps the session key. */
  lemma {:induction false} SessionKeySurvives(store: Store, ops: seq<Op>)
    requires Healthy(Stored(store.file)) && UsableKey(Stored(store.file)).Some?
    requires forall op :: op in ops ==> Harmless(op)
    ensures UsableKey(Stored(RunOps(store, ops).file)) == UsableKey(Stored(store.file))
    ensures Healthy(Stored(RunOps(store, ops).file))
  {
    if ops != [] {
      var init, last := ops[..|ops| - 1], ops[|ops| - 1];
      assert last in ops && forall op :: op in init ==> op in ops;
      SessionKeySurvives(store, init);
      ApplyKeepsSessionKey(RunOps(store, init), last);
    }
  }

  /** A session key that reached the disk is usable from then on. */
  lemma {:induction false} PersistedKeyIsUsable(store: Store, random: seq<Octet>)
    requires Healthy(Stored(store.file)) && |random| == 32 && !KeyCrashes(Stored(store.file))
    ensures UsableKey(Stored(Apply(store, UseSessionKey(random, true)).file))
         == Some(SessionKey(Stored(store.file), random))
  {
    ApplyRefines(store, UseSessionKey(random, true));
    HexRoundTrip(random);
  }

  /** With a persisted session key, a token stays valid for exactly 24 hours, whatever harmless calls are made in
      the meantime, however often the program restarts, and whatever the authentication code is. */
  lemma {:induction false} TokenSurvives(mac: Mac, store: Store, random: seq<Octet>, ops: seq<Op>, issued: int,
                                         now: int, later: seq<Octet>)
    requires Healthy(Stored(store.file)) && |random| == 32 && !KeyCrashes(Stored(store.file))
    requires forall op :: op in ops ==> Harmless(op)
    requires InI64(issued + SESSION_TTL_SECS)
    ensures var key := SessionKey(Stored(store.file), random);
      var after := RunOps(Apply(store, UseSessionKey(random, true)), ops);
      VerifyToken(mac, SessionKey(Stored(after.file), later), IssueToken(mac, key, issued), now)
        == if now <= issued + 24 * 3600 then Valid else Rejected
  {
    var key := SessionKey(Stored(store.file), random);
    var start := Apply(store, UseSessionKey(random, true));
    PersistedKeyIsUsable(store, random);
    ApplyRefines(store, UseSessionKey(random, true));
    SessionKeySurvives(start, ops);
    TokenVerdict(mac, key, key, issued, now);
  }
}
