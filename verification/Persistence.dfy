/** What the secrets file guarantees over whole runs of its writers. */
module Persistence {
  import opened Escaping
  import opened KeyOrder
  import opened ManagedKeys
  import opened Pem
  import opened RoundTrip
  import opened SecretsFile
  import opened Text
  import opened Tokens
  import opened Wrappers
  import opened Writers

  /** The values that come from outside and are stored as they are. What `Put` stores needs no condition. */
  predicate WellFormed(op: Op) {
    match op
    case SetAdmin(_, hash, _) => hash.Some? ==> Admissible(hash.value) && NUL !in hash.value
    case UseSessionKey(random, _) => |random| == 32
    case Merge(bundle, allow, _) =>
      forall k :: k in bundle && Imported(k, bundle[k], allow) ==> IsEnvKey(k) && Admissible(bundle[k])
    case _ => true
  }

  // ----- every value that is stored can be read back -----

  lemma TrimmedIsEdgeSafe(v: string)
    requires Trimmed(Rust, v)
    ensures EdgeSafe(Rust, v)
  {
  }

  lemma NormalizedIsTrimmed(value: string)
    requires Trimmed(Rust, value) && Normalize(value).Repaired?
    ensures Trimmed(Rust, Normalize(value).text)
  {
    TrimIsTrimmed(Rust, value);
    if Dissect(value).Block? {
      var Block(h, body, f) := Dissect(value);
      BlockIsMarked(value);
      RebuiltIsTrimmed(h, Wrap(Bytes(body)), f);
      TrimIsTrimmed(Rust, Rebuild(h, body, f));
    }
  }

  /** Trimming, repairing and rejecting truncated blocks together make every accepted value admissible. */
  lemma {:induction false} KeptIsAdmissible(key: string, raw: string)
    requires Judge(key, raw).Keep?
    ensures Admissible(Judge(key, raw).value)
  {
    TrimIsTrimmed(Rust, raw);
    if key == PEM_KEY { NormalizedIsTrimmed(Trim(Rust, raw)); }
    TrimmedIsEdgeSafe(Judge(key, raw).value);
  }

  lemma {:induction false} ManagedIsOrdinary(k: string)
    requires IsManaged(k)
    ensures Ordinary(k)
  {
    if k in VENUE_KEYS {
      VenueKeysAreOrdinary(k);
    } else if k in RAPTOR_KEYS {
      RaptorKeysAreOrdinary(k);
    } else {
      IntegrationKeysAreOrdinary(k);
    }
  }

  /** Every key can be written, and every value to be kept can be read back. */
  ghost predicate Storable(request: Request) {
    forall k :: k in request ==> IsEnvKey(k) && (request[k].Keep? ==> Admissible(request[k].value))
  }

  lemma JudgedIsStorable(credentials: map<string, string>)
    requires AllManaged(credentials)
    ensures Storable(Judged(credentials))
  {
    forall k | k in credentials
      ensures IsEnvKey(k) && (Judge(k, credentials[k]).Keep? ==> Admissible(Judge(k, credentials[k]).value))
    {
      ManagedIsOrdinary(k);
      if Judge(k, credentials[k]).Keep? { KeptIsAdmissible(k, credentials[k]); }
    }
  }

  lemma {:induction false} PutAllHealthy(d: Draft, ks: seq<string>, request: Request)
    requires Healthy(d.secrets) && Storable(request) && forall k :: k in ks ==> k in request
    ensures Healthy(PutAll(d, ks, request).secrets)
    decreases ks
  {
    if ks != [] && d.reply == Done { PutAllHealthy(PutOne(d, ks[0], request[ks[0]]), ks[1..], request); }
  }

  lemma {:induction false} MergeHealthy(m: Secrets, ks: seq<string>, bundle: map<string, string>, allow: bool)
    requires Healthy(m) && WellFormed(Merge(bundle, allow, true)) && forall k :: k in ks ==> k in bundle
    ensures Healthy(MergeInto(m, ks, bundle, allow))
    decreases ks
  {
    if ks != [] {
      var next := if Imported(ks[0], bundle[ks[0]], allow) then m[ks[0] := bundle[ks[0]]] else m;
      MergeHealthy(next, ks[1..], bundle, allow);
    }
  }

  lemma InternalKeysAreEnvKeys()
    ensures IsEnvKey(ADMIN_HASH) && IsEnvKey(SESSION_KEY) && IsEnvKey(TIER_KEY) && IsEnvKey(KILL_KEY)
    ensures ADMIN_HASH != SESSION_KEY && SESSION_KEY[0] == 'D' && TIER_KEY[0] == 'L' && KILL_KEY[0] == 'L'
  {
    assert |ADMIN_HASH| != |SESSION_KEY|;
  }

  lemma SmallTextIsAdmissible(v: string)
    requires forall i :: 0 <= i < |v| ==> HexChar(v[i])
    ensures Admissible(v)
  {
    assert BEGIN[0] == '-';
  }

  lemma TierIsAdmissible(tier: int)
    requires 1 <= tier <= 3
    ensures Admissible(Decimal(tier))
  {
    ParseDecimalNat(tier);
    SmallTextIsAdmissible(Decimal(tier));
  }

  lemma HealthyInsert(m: Secrets, k: string, v: string)
    requires Healthy(m) && IsEnvKey(k) && Admissible(v)
    ensures Healthy(m[k := v])
  {
  }

  lemma AutonomyHealthy(secrets: Secrets, env: map<string, string>, tier: Option<int>, kill: Option<bool>, diskOk: bool)
    requires Healthy(secrets)
    ensures Healthy(AutonomyAttempt(secrets, env, tier, kill, diskOk).secrets)
  {
    InternalKeysAreEnvKeys();
    SmallTextIsAdmissible("1");
    SmallTextIsAdmissible("0");
    var s := secrets;
    if tier.Some? && 1 <= tier.value <= 3 {
      TierIsAdmissible(tier.value);
      HealthyInsert(s, TIER_KEY, Decimal(tier.value));
      s := s[TIER_KEY := Decimal(tier.value)];
    }
    if kill.Some? { HealthyInsert(s, KILL_KEY, if kill.value then "1" else "0"); }
  }

  lemma {:induction false} AttemptIsHealthy(secrets: Secrets, env: map<string, string>, op: Op)
    requires Healthy(secrets) && WellFormed(op)
    ensures Healthy(AttemptOf(secrets, env, op).secrets)
  {
    match op
    case Put(credentials, _) =>
      if AllManaged(credentials) {
        JudgedIsStorable(credentials);
        var request := Judged(credentials);
        PutAllHealthy(Draft(secrets, env, 0, Done), SortedKeys(request.Keys), request);
      }
    case SetAdmin(_, hash, _) =>
      InternalKeysAreEnvKeys();
      if hash.Some? { HealthyInsert(secrets, ADMIN_HASH, hash.value); }
    case UseSessionKey(random, _) =>
      InternalKeysAreEnvKeys();
      HexEncodeIsHex(random);
      SmallTextIsAdmissible(HexEncode(random));
      HealthyInsert(secrets, SESSION_KEY, HexEncode(random));
    case Autonomy(tier, kill, diskOk) => AutonomyHealthy(secrets, env, tier, kill, diskOk);
    case Merge(bundle, allow, _) =>
      MergeHealthy(secrets, UntilPanic(SortedKeys(bundle.Keys), bundle, allow), bundle, allow);
    case Restart(_) =>
  }

  /** What a commit leaves on disk reads back as the map that was to be written. */
  lemma {:induction false} CommitReads(store: Store, a: Attempt)
    requires Healthy(a.secrets)
    ensures Stored(Commit(store, a).file) == if a.written then a.secrets else Stored(store.file)
  {
    HealthyRoundTrip(a.secrets);
  }

  lemma {:induction false} ApplyRefines(store: Store, op: Op)
    requires Healthy(Stored(store.file)) && WellFormed(op)
    ensures var after, ideal := Apply(store, op), IdealApply(Ideal(Stored(store.file), store.env), op);
      Stored(after.file) == ideal.secrets && after.env == ideal.env && Healthy(ideal.secrets)
  {
    AttemptIsHealthy(Stored(store.file), store.env, op);
    CommitReads(store, AttemptOf(Stored(store.file), store.env, op));
  }

  /** Over every run, the file reads back as the map that was last written: the file, its escaping and
      its line format are invisible behind a plain map. */
  lemma {:induction false} RunRefinesIdeal(store: Store, ops: seq<Op>)
    requires Healthy(Stored(store.file)) && forall op :: op in ops ==> WellFormed(op)
    ensures var after, ideal := RunOps(store, ops), IdealRun(Ideal(Stored(store.file), store.env), ops);
      Stored(after.file) == ideal.secrets && after.env == ideal.env && Healthy(ideal.secrets)
  {
    if ops != [] {
      var init, last := ops[..|ops| - 1], ops[|ops| - 1];
      assert last in ops && forall op :: op in init ==> op in ops;
      RunRefinesIdeal(store, init);
      ApplyRefines(RunOps(store, init), last);
    }
  }

  /** In particular from a machine that has no secrets file yet. */
  lemma {:induction false} RunFromMissingFile(env: map<string, string>, ops: seq<Op>)
    requires forall op :: op in ops ==> WellFormed(op)
    ensures Stored(RunOps(Store(None, env), ops).file) == IdealRun(Ideal(map[], env), ops).secrets
  {
    RunRefinesIdeal(Store(None, env), ops);
  }

  // ----- what a PUT leaves behind -----

  /** An entry that ends the request: a truncated PEM block, or one on which the repair panics. */
  predicate Bad(entry: Entry) { entry.Truncated? || entry.Panics? }

  ghost predicate NoneBad(request: Request) {
    forall k :: k in request ==> !Bad(request[k])
  }

  /** What an accepted entry stands for afterwards, in the map and in the environment. */
  ghost predicate Applied(before: Draft, after: Draft, key: string, entry: Entry) {
    match entry
    case Remove =>
      && key !in after.secrets
      && (if key in before.secrets then key !in after.env else SameEntry(before.env, after.env, key))
    case Keep(v) => key in after.secrets && key in after.env && after.secrets[key] == after.env[key] == v
    case _ => false
  }

  ghost predicate SameEntry(m: map<string, string>, n: map<string, string>, k: string) {
    (k in m <==> k in n) && (k in m ==> m[k] == n[k])
  }

  ghost predicate Untouched(before: Draft, after: Draft, key: string) {
    SameEntry(before.secrets, after.secrets, key) && SameEntry(before.env, after.env, key)
  }

  lemma PutOneEntry(d: Draft, key: string, entry: Entry)
    requires d.reply == Done && !Bad(entry)
    ensures var next := PutOne(d, key, entry);
      next.reply == Done && Applied(d, next, key, entry) && forall k :: k != key ==> Untouched(d, next, k)
  {
  }

  function Refusal(entry: Entry): Reply { if entry.Truncated? then BadRequest else Reply.Crashed }

  /** The entries before the first bad one are applied, nothing else changes. */
  lemma {:induction false} PutAllEntries(d: Draft, ks: seq<string>, request: Request) returns (n: nat)
    requires Distinct(ks) && d.reply == Done && forall k :: k in ks ==> k in request
    ensures n <= |ks| && (n < |ks| ==> Bad(request[ks[n]]))
    ensures forall i :: 0 <= i < n ==> Applied(d, PutAll(d, ks, request), ks[i], request[ks[i]])
    ensures forall k :: k !in ks[..n] ==> Untouched(d, PutAll(d, ks, request), k)
    ensures PutAll(d, ks, request).reply == if n == |ks| then Done else Refusal(request[ks[n]])
    ensures n == |ks| <==> forall k :: k in ks ==> !Bad(request[k])
    decreases ks
  {
    n := 0;
    if ks != [] && !Bad(request[ks[0]]) {
      var next := PutOne(d, ks[0], request[ks[0]]);
      PutOneEntry(d, ks[0], request[ks[0]]);
      var m := PutAllEntries(next, ks[1..], request);
      n := m + 1;
      PutAllFirst(d, next, PutAll(d, ks, request), ks, request, m);
    } else if ks != [] {
      assert PutAll(d, ks, request) == PutOne(d, ks[0], request[ks[0]]);
    }
  }

  /** What holds of the rest of the entries after the first one, together with what the first one does. */
  lemma PutAllFirst(d: Draft, next: Draft, end: Draft, ks: seq<string>, request: Request, m: nat)
    requires ks != [] && Distinct(ks) && m < |ks| && forall k :: k in ks ==> k in request
    requires Applied(d, next, ks[0], request[ks[0]]) && forall k :: k != ks[0] ==> Untouched(d, next, k)
    requires forall i :: 0 <= i < m ==> Applied(next, end, ks[1..][i], request[ks[1..][i]])
    requires forall k :: k !in ks[1..][..m] ==> Untouched(next, end, k)
    ensures forall i :: 0 <= i < m + 1 ==> Applied(d, end, ks[i], request[ks[i]])
    ensures forall k :: k !in ks[..m + 1] ==> Untouched(d, end, k)
  {
    var k, rest := ks[0], ks[1..];
    assert ks[..m + 1] == [k] + rest[..m];
    assert Untouched(next, end, k);
    forall i | 0 <= i < m + 1 ensures Applied(d, end, ks[i], request[ks[i]]) {
      if i > 0 {
        assert ks[i] == rest[i - 1] && Untouched(d, next, ks[i]);
        assert Applied(next, end, rest[i - 1], request[rest[i - 1]]);
      }
    }
    forall j | j !in ks[..m + 1] ensures Untouched(d, end, j) {
      assert Untouched(d, next, j) && Untouched(next, end, j);
    }
  }

  lemma {:induction false} PutAllNoChange(d: Draft, ks: seq<string>, request: Request)
    requires forall k :: k in ks ==> k in request
    ensures var e := PutAll(d, ks, request);
      e.changed >= d.changed && (e.changed == d.changed ==> e.secrets == d.secrets && e.env == d.env)
    decreases ks
  {
    if ks != [] && d.reply == Done { PutAllNoChange(PutOne(d, ks[0], request[ks[0]]), ks[1..], request); }
  }

  lemma BeforeInOrder(ks: seq<string>, n: nat, k: string)
    requires Ascending(ks) && n < |ks|
    ensures k in ks[..n] <==> k in ks && Less(k, ks[n])
  {
    if k in ks && Less(k, ks[n]) {
      var i :| 0 <= i < |ks| && ks[i] == k;
      LessAsymmetric(k, ks[n]);
      assert i < n && ks[..n][i] == k;
    }
  }

  lemma {:induction false} RequestSucceeds(d: Draft, request: Request)
    requires d.reply == Done && NoneBad(request)
    ensures var e := PutAll(d, SortedKeys(request.Keys), request);
      && e.reply == Done
      && (forall k :: k in request ==> Applied(d, e, k, request[k]))
      && (forall k :: k !in request ==> Untouched(d, e, k))
  {
    var ks := SortedKeys(request.Keys);
    var n := PutAllEntries(d, ks, request);
    var e := PutAll(d, ks, request);
    assert ks[..n] == ks;
    forall k | k in request ensures Applied(d, e, k, request[k]) {
      assert k in ks;
      var i :| 0 <= i < |ks| && ks[i] == k;
    }
  }

  lemma FirstBad(d: Draft, request: Request) returns (n: nat)
    requires d.reply == Done && !NoneBad(request)
    ensures var ks, e := SortedKeys(request.Keys), PutAll(d, SortedKeys(request.Keys), request);
      && n < |ks| && ks[n] in request && Bad(request[ks[n]]) && e.reply == Refusal(request[ks[n]])
      && (forall i :: 0 <= i < n ==> ks[i] in request && Applied(d, e, ks[i], request[ks[i]]))
      && (forall k :: k !in ks[..n] ==> Untouched(d, e, k))
  {
    var ks := SortedKeys(request.Keys);
    n := PutAllEntries(d, ks, request);
    assert n != |ks| by {
      var k :| k in request && Bad(request[k]);
      assert k in ks;
    }
    forall i | 0 <= i <= n ensures ks[i] in request { assert ks[i] in ks; }
  }

  lemma RequestFails(d: Draft, request: Request) returns (bad: string)
    requires d.reply == Done && !NoneBad(request)
    ensures var e := PutAll(d, SortedKeys(request.Keys), request);
      && bad in request && Bad(request[bad]) && e.reply == Refusal(request[bad])
      && (forall k :: k in request && Less(k, bad) ==> Applied(d, e, k, request[k]))
      && (forall k :: k !in request || !Less(k, bad) ==> Untouched(d, e, k))
  {
    var n := FirstBad(d, request);
    bad := SortedKeys(request.Keys)[n];
    FailsAt(d, request, n);
  }

  lemma FailsAt(d: Draft, request: Request, n: nat)
    requires n < |SortedKeys(request.Keys)|
    requires var ks, e := SortedKeys(request.Keys), PutAll(d, SortedKeys(request.Keys), request);
      && (forall i :: 0 <= i < n ==> ks[i] in request && Applied(d, e, ks[i], request[ks[i]]))
      && (forall k :: k !in ks[..n] ==> Untouched(d, e, k))
    ensures var bad, e := SortedKeys(request.Keys)[n], PutAll(d, SortedKeys(request.Keys), request);
      && (forall k :: k in request && Less(k, bad) ==> Applied(d, e, k, request[k]))
      && (forall k :: k !in request || !Less(k, bad) ==> Untouched(d, e, k))
  {
    var ks, e := SortedKeys(request.Keys), PutAll(d, SortedKeys(request.Keys), request);
    forall k | k in request && Less(k, ks[n]) ensures Applied(d, e, k, request[k]) {
      BeforeInOrder(ks, n, k);
      var i :| 0 <= i < n && ks[..n][i] == k;
      assert ks[i] == k;
    }
    forall k | k !in request || !Less(k, ks[n]) ensures Untouched(d, e, k) {
      BeforeInOrder(ks, n, k);
    }
  }

  /** Nothing is changed exactly when all that is asked for is the removal of keys that are not there. */
  lemma {:induction false} PutAllCounts(d: Draft, ks: seq<string>, request: Request)
    requires forall k :: k in ks ==> k in request && !Bad(request[k])
    ensures PutAll(d, ks, request).changed == d.changed <==>
      d.reply != Done || forall k :: k in ks ==> request[k].Remove? && k !in d.secrets
    decreases ks
  {
    if ks != [] && d.reply == Done {
      var next := PutOne(d, ks[0], request[ks[0]]);
      PutAllNoChange(next, ks[1..], request);
      if next.changed == d.changed {
        assert next == d;
        PutAllCounts(d, ks[1..], request);
        assert forall k :: k in ks <==> k == ks[0] || k in ks[1..];
      } else {
        assert ks[0] in ks;
      }
    }
  }

  /** A PUT is answered with success exactly when every key is managed, no value is bad, and the disk takes it
      or there is nothing to write: all it asks for is the removal of keys that are not on file. */
  lemma {:induction false} PutReply(secrets: Secrets, env: map<string, string>, credentials: map<string, string>,
                                    diskOk: bool)
    ensures PutAttempt(secrets, env, credentials, diskOk).reply == Done <==>
      && AllManaged(credentials) && NoneBad(Judged(credentials))
      && (diskOk || forall k :: k in credentials ==> Judge(k, credentials[k]).Remove? && k !in secrets)
  {
    if AllManaged(credentials) {
      var request := Judged(credentials);
      RequestReply(secrets, env, request, diskOk);
      if forall k :: k in credentials ==> Judge(k, credentials[k]).Remove? && k !in secrets {
        forall k | k in request ensures request[k].Remove? && k !in secrets {
          assert request[k] == Judge(k, credentials[k]);
        }
      }
      if forall k :: k in request ==> request[k].Remove? && k !in secrets {
        forall k | k in credentials ensures Judge(k, credentials[k]).Remove? && k !in secrets {
          assert k in request && request[k] == Judge(k, credentials[k]);
        }
      }
    }
  }

  lemma RequestReply(secrets: Secrets, env: map<string, string>, request: Request, diskOk: bool)
    ensures PutRequest(secrets, env, request, diskOk).reply == Done <==>
      NoneBad(request) && (diskOk || forall k :: k in request ==> request[k].Remove? && k !in secrets)
  {
    var d, ks := Draft(secrets, env, 0, Done), SortedKeys(request.Keys);
    if NoneBad(request) {
      RequestSucceeds(d, request);
      PutAllCounts(d, ks, request);
      assert forall k :: k in ks <==> k in request;
    } else {
      var bad := RequestFails(d, request);
    }
  }

  /** The map a reader finds after an attempt, and the environment. */
  ghost function Result(secrets: Secrets, a: Attempt): Draft {
    Draft(if a.written then a.secrets else secrets, a.env, 0, a.reply)
  }

  lemma RequestResult(secrets: Secrets, env: map<string, string>, request: Request, diskOk: bool)
    requires PutRequest(secrets, env, request, diskOk).reply == Done
    ensures var d, e := Draft(secrets, env, 0, Done), Result(secrets, PutRequest(secrets, env, request, diskOk));
      && (forall k :: k in request ==> Applied(d, e, k, request[k]))
      && (forall k :: k !in request ==> Untouched(d, e, k))
  {
    var d := Draft(secrets, env, 0, Done);
    if !NoneBad(request) {
      var bad := RequestFails(d, request);
      assert false;
    }
    RequestSucceeds(d, request);
    PutAllNoChange(d, SortedKeys(request.Keys), request);
    var end, e := PutAll(d, SortedKeys(request.Keys), request),
      Result(secrets, PutRequest(secrets, env, request, diskOk));
    assert e.secrets == end.secrets && e.env == end.env;
    forall k | k in request ensures Applied(d, e, k, request[k]) {
      assert Applied(d, end, k, request[k]);
    }
    forall k | k !in request ensures Untouched(d, e, k) {
      assert Untouched(d, end, k);
    }
  }

  /** After a successful PUT the file and the environment agree on every key that was set, a removed key is
      gone from the file, and every other key is as before, in both. */
  lemma {:induction false} PutTakesEffect(store: Store, credentials: map<string, string>, diskOk: bool, after: Store)
    requires Healthy(Stored(store.file))
    requires PutAttempt(Stored(store.file), store.env, credentials, diskOk).reply == Done
    requires after == Apply(store, Put(credentials, diskOk))
    ensures var d, e := Draft(Stored(store.file), store.env, 0, Done), Draft(Stored(after.file), after.env, 0, Done);
      && (forall k :: k in credentials ==> Applied(d, e, k, Judge(k, credentials[k])))
      && (forall k :: k !in credentials ==> Untouched(d, e, k))
  {
    ApplyRefines(store, Put(credentials, diskOk));
    PutResult(Stored(store.file), store.env, credentials, diskOk);
  }

  lemma PutResult(secrets: Secrets, env: map<string, string>, credentials: map<string, string>, diskOk: bool)
    requires PutAttempt(secrets, env, credentials, diskOk).reply == Done
    ensures var d, e := Draft(secrets, env, 0, Done), Result(secrets, PutAttempt(secrets, env, credentials, diskOk));
      && (forall k :: k in credentials ==> Applied(d, e, k, Judge(k, credentials[k])))
      && (forall k :: k !in credentials ==> Untouched(d, e, k))
  {
    var request := Judged(credentials);
    RequestResult(secrets, env, request, diskOk);
    var d, e := Draft(secrets, env, 0, Done), Result(secrets, PutAttempt(secrets, env, credentials, diskOk));
    forall k | k in credentials ensures Applied(d, e, k, Judge(k, credentials[k])) {
      assert k in request && Applied(d, e, k, request[k]);
    }
  }
}
