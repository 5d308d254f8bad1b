/** The secrets file and the process environment as they are updated in place. */
module SecretsStore {
  import opened KeyOrder
  import opened ManagedKeys
  import opened Pem
  import opened SecretsFile
  import opened Text
  import opened Tokens
  import opened Wrappers
  import opened Writers

  class Process {
    var file: Option<string>
    var env: map<string, string>

    ghost function State(): Store
      reads this
    {
      Store(file, env)
    }

    constructor (file: Option<string>, env: map<string, string>)
      ensures State() == Store(file, env)
    {
      this.file, this.env := file, env;
    }

    method ReadSecrets() returns (secrets: Secrets)
      ensures secrets == Stored(file)
    {
      if file.Some? {
        secrets := ParseSecrets(file.value);
      } else {
        secrets := map[];
      }
    }

    /** A failed write leaves the previous file in place: the new one is renamed over it at the end. */
    method WriteSecrets(secrets: Secrets, diskOk: bool)
      modifies this`file
      ensures file == if diskOk then Some(Render(secrets)) else old(file)
    {
      var text := RenderSecrets(secrets);
      if diskOk { file := Some(text); }
    }

    /** Starting over with a new environment, which the file then overrides. */
    method Restart(launchEnv: map<string, string>) returns (reply: Reply)
      modifies this
      ensures var a := RestartAttempt(Stored(old(file)), launchEnv);
        State() == Commit(old(State()), a) && reply == a.reply
    {
      env, reply := launchEnv, Done;
      var secrets := ReadSecrets();
      var todo := secrets.Keys;
      while todo != {}
        invariant todo <= secrets.Keys && file == old(file)
        invariant env == Overlaid(launchEnv, secrets, todo) && SetUpTo(secrets, todo)
      {
        var k := NextKey(todo);
        LeastFirst(todo, k);
        if !Settable(k, secrets[k]) {
          LoadedUpTo(secrets, todo, k);
          return Reply.Crashed;
        }
        SetStep(secrets, todo, k);
        OverlaidStep(launchEnv, secrets, todo, k);
        env := env[k := secrets[k]];
        todo := todo - {k};
      }
      LoadedAll(secrets);
    }

    method PutCredentials(credentials: map<string, string>, diskOk: bool) returns (reply: Reply)
      modifies this
      ensures var a := PutAttempt(Stored(old(file)), old(env), credentials, diskOk);
        State() == Commit(old(State()), a) && reply == a.reply
    {
      var managed := AllManaged(credentials);
      if !managed { return BadRequest; }
      reply := PutManaged(credentials, diskOk, Judged(credentials));
    }

    method PutManaged(credentials: map<string, string>, diskOk: bool, ghost request: Request) returns (reply: Reply)
      requires IsJudged(request, credentials)
      modifies this
      ensures var a := PutRequest(Stored(old(file)), old(env), request, diskOk);
        State() == Commit(old(State()), a) && reply == a.reply
    {
      var secrets := ReadSecrets();
      var changed: nat;
      secrets, changed, reply := PutEach(secrets, credentials, request);
      if reply != Done { return; }
      if changed == 0 { return Done; }
      WriteSecrets(secrets, diskOk);
      reply := if diskOk then Done else Failed;
    }

    method PutEach(before: Secrets, credentials: map<string, string>, ghost request: Request)
      returns (secrets: Secrets, changed: nat, reply: Reply)
      requires IsJudged(request, credentials)
      modifies this`env
      ensures Draft(secrets, env, changed, reply)
           == PutAll(Draft(before, old(env), 0, Done), SortedKeys(request.Keys), request)
    {
      secrets, changed, reply := before, 0, Done;
      var todo := credentials.Keys;
      while todo != {} && reply == Done
        invariant todo <= credentials.Keys
        invariant PutAll(Draft(secrets, env, changed, reply), SortedKeys(todo), request)
               == PutAll(Draft(before, old(env), 0, Done), SortedKeys(request.Keys), request)
        decreases todo
      {
        var key := NextKey(todo);
        ghost var d := Draft(secrets, env, changed, reply);
        PutStep(d, SortedKeys(todo), request);
        todo := todo - {key};
        var entry := Vet(key, credentials, request);
        secrets, changed, reply := PutEntry(secrets, key, entry, changed);
      }
    }

    method PutEntry(before: Secrets, key: string, entry: Entry, n: nat)
      returns (secrets: Secrets, changed: nat, reply: Reply)
      modifies this`env
      ensures Draft(secrets, env, changed, reply) == PutOne(Draft(before, old(env), n, Done), key, entry)
    {
      secrets, changed, reply := before, n, Done;
      match entry {
        case Remove =>
          if key in secrets {
            secrets, env, changed := secrets - {key}, env - {key}, changed + 1;
          }
        case Keep(value) =>
          secrets, env, changed := secrets[key := value], env[key := value], changed + 1;
        case Truncated => reply := BadRequest;
        case Panics => reply := Reply.Crashed;
      }
    }

    /** A successful call also issues a token, and so stores a session key when there is none yet. */
    method SetAdmin(password: string, hash: Option<string>, diskOk: bool, random: seq<Octet>, keyDiskOk: bool)
      returns (reply: Reply, key: Option<seq<Octet>>)
      modifies this
      ensures var a := AdminAttempt(Stored(old(file)), old(env), password, hash, diskOk);
        var mid := Commit(old(State()), a);
        if a.reply != Done then State() == mid && reply == a.reply && key.None?
        else
          && State() == Commit(mid, SessionAttempt(Stored(mid.file), mid.env, random, keyDiskOk))
          && key == (if KeyCrashes(Stored(mid.file)) then None else Some(SessionKey(Stored(mid.file), random)))
          && reply == if key.None? then Reply.Crashed else Done
    {
      key := None;
      reply := StoreHash(password, hash, diskOk);
      if reply != Done { return; }
      key := GetSessionKey(random, keyDiskOk);
      if key.None? { reply := Reply.Crashed; }
    }

    method StoreHash(password: string, hash: Option<string>, diskOk: bool) returns (reply: Reply)
      modifies this
      ensures var a := AdminAttempt(Stored(old(file)), old(env), password, hash, diskOk);
        State() == Commit(old(State()), a) && reply == a.reply
    {
      if ByteLength(password) < 8 { return BadRequest; }
      if hash.None? { return Failed; }
      var secrets := ReadSecrets();
      WriteSecrets(secrets[ADMIN_HASH := hash.value], diskOk);
      if !diskOk { return Failed; }
      if NUL in hash.value { return Reply.Crashed; }
      env := env[ADMIN_HASH := hash.value];
      reply := Done;
    }

    /** The signing key, made from `random` and stored when there is none yet. */
    method GetSessionKey(random: seq<Octet>, diskOk: bool) returns (key: Option<seq<Octet>>)
      modifies this
      ensures State() == Commit(old(State()), SessionAttempt(Stored(old(file)), old(env), random, diskOk))
      ensures key == if KeyCrashes(Stored(old(file))) then None else Some(SessionKey(Stored(old(file)), random))
    {
      var secrets := ReadSecrets();
      if SESSION_KEY in secrets {
        var decoded := HexDecode(secrets[SESSION_KEY]);
        if decoded.Panic? { return None; }
        if decoded.Octets? && |decoded.bytes| >= 32 { return Some(decoded.bytes); }
      }
      WriteSecrets(secrets[SESSION_KEY := HexEncode(random)], diskOk);
      key := Some(random);
    }

    method PutAutonomy(tier: Option<int>, kill: Option<bool>, diskOk: bool) returns (reply: Reply)
      modifies this
      ensures var a := AutonomyAttempt(Stored(old(file)), old(env), tier, kill, diskOk);
        State() == Commit(old(State()), a) && reply == a.reply
    {
      if tier.Some? && !(1 <= tier.value <= 3) { return BadRequest; }
      var secrets := ReadSecrets();
      if tier.Some? {
        secrets, env := secrets[TIER_KEY := Decimal(tier.value)], env[TIER_KEY := Decimal(tier.value)];
      }
      if kill.Some? {
        var v := if kill.value then "1" else "0";
        secrets, env := secrets[KILL_KEY := v], env[KILL_KEY := v];
      }
      reply := Done;
      if tier.Some? || kill.Some? {
        WriteSecrets(secrets, diskOk);
        if !diskOk { reply := Failed; }
      }
    }

    /** `count` is the number of entries that were imported. */
    method MergeSecrets(bundle: map<string, string>, allowAdminHash: bool, diskOk: bool)
      returns (reply: Reply, count: nat)
      modifies this
      ensures var a := MergeAttempt(Stored(old(file)), old(env), bundle, allowAdminHash, diskOk);
        State() == Commit(old(State()), a) && reply == a.reply
      ensures reply != Reply.Crashed ==> count == |AllImported(bundle, {}, allowAdminHash)|
    {
      var secrets := ReadSecrets();
      secrets, reply, count := MergeEach(secrets, bundle, allowAdminHash);
      if reply != Done { return; }
      WriteSecrets(secrets, diskOk);
      if !diskOk { reply := Failed; }
    }

    method MergeEach(before: Secrets, bundle: map<string, string>, allow: bool)
      returns (secrets: Secrets, reply: Reply, count: nat)
      modifies this`env
      ensures var all := SortedKeys(bundle.Keys);
        var ks := UntilPanic(all, bundle, allow);
        && env == MergeInto(old(env), ks, bundle, allow) && reply == (if ks == all then Done else Reply.Crashed)
        && (reply == Done ==> secrets == MergeInto(before, ks, bundle, allow))
        && (reply == Done ==> count == |AllImported(bundle, {}, allow)|)
    {
      secrets, reply, count := before, Done, 0;
      var todo := bundle.Keys;
      assert AllImported(bundle, todo, allow) == {};
      while todo != {}
        invariant todo <= bundle.Keys && count == |AllImported(bundle, todo, allow)|
        invariant Leads(before, SortedKeys(bundle.Keys), secrets, SortedKeys(todo), bundle, allow)
        invariant Leads(old(env), SortedKeys(bundle.Keys), env, SortedKeys(todo), bundle, allow)
        decreases todo
      {
        var k := NextKey(todo);
        ghost var rest := SortedKeys(todo - {k});
        var take := Imported(k, bundle[k], allow);
        if take && !Settable(k, bundle[k]) {
          LeadsToPanic(before, SortedKeys(bundle.Keys), secrets, k, rest, bundle, allow);
          LeadsToPanic(old(env), SortedKeys(bundle.Keys), env, k, rest, bundle, allow);
          reply := Reply.Crashed;
          return;
        }
        LeadsOn(before, SortedKeys(bundle.Keys), secrets, k, rest, bundle, allow, take);
        LeadsOn(old(env), SortedKeys(bundle.Keys), env, k, rest, bundle, allow, take);
        ImportedStep(bundle, todo, k, allow);
        todo := todo - {k};
        if take {
          secrets, env, count := secrets[k := bundle[k]], env[k := bundle[k]], count + 1;
        }
      }
    }
  }

  ghost predicate IsJudged(request: Request, credentials: map<string, string>) {
    && request.Keys == credentials.Keys
    && forall k {:trigger Judge(k, credentials[k])} :: k in credentials ==> request[k] == Judge(k, credentials[k])
  }

  /** Trim the value, repair the line structure of a PEM credential, then refuse one that is cut off. */
  method Vet(key: string, credentials: map<string, string>, ghost request: Request) returns (entry: Entry)
    requires key in credentials && IsJudged(request, credentials)
    ensures entry == request[key]
  {
    assert request[key] == Judge(key, credentials[key]);
    var value := Trim(Rust, credentials[key]);
    if value == [] { return Remove; }
    var repair := Repaired(value);
    if key == PEM_KEY { repair := NormalizePem(value); }
    if repair.Panic? { return Panics; }
    entry := if LooksTruncated(repair.text) then Truncated
      else if NUL in repair.text then Panics
      else Keep(repair.text);
  }

  lemma PutStep(d: Draft, ks: seq<string>, request: Request)
    requires ks != [] && d.reply == Done && forall k :: k in ks ==> k in request
    ensures PutAll(d, ks, request) == PutAll(PutOne(d, ks[0], request[ks[0]]), ks[1..], request)
  {
  }

  /** An environment after some of the secrets have been set in it. */
  ghost function Overlaid(env: map<string, string>, secrets: Secrets, todo: set<string>): map<string, string> {
    env + (map k | k in secrets && k !in todo :: secrets[k])
  }

  lemma OverlaidStep(env: map<string, string>, secrets: Secrets, todo: set<string>, k: string)
    requires k in todo && k in secrets
    ensures Overlaid(env, secrets, todo - {k}) == Overlaid(env, secrets, todo)[k := secrets[k]]
  {
  }

  /** The secrets visited so far come before those still to be visited, and all of them could be set. */
  ghost predicate SetUpTo(secrets: Secrets, todo: set<string>) {
    forall k :: k in secrets && k !in todo ==> Settable(k, secrets[k]) && forall j :: j in todo ==> Less(k, j)
  }

  lemma LeastFirst(todo: set<string>, k: string)
    requires k in todo && SortedKeys(todo) == [k] + SortedKeys(todo - {k})
    ensures IsLeast(k, todo)
  {
    var ks := SortedKeys(todo);
    forall j | j in todo && j != k ensures Less(k, j) {
      assert j in ks;
      var i :| 0 <= i < |ks| && ks[i] == j;
      assert Less(ks[0], ks[i]);
    }
  }

  lemma SetStep(secrets: Secrets, todo: set<string>, k: string)
    requires SetUpTo(secrets, todo) && IsLeast(k, todo) && k in secrets && Settable(k, secrets[k])
    ensures SetUpTo(secrets, todo - {k})
  {
  }

  /** At the first secret that cannot be set, exactly the secrets before it are set. */
  lemma LoadedUpTo(secrets: Secrets, todo: set<string>, k: string)
    requires SetUpTo(secrets, todo) && todo <= secrets.Keys && IsLeast(k, todo) && !Settable(k, secrets[k])
    ensures Loaded(secrets) == map j | j in secrets && j !in todo :: secrets[j]
  {
    forall j | j in secrets ensures j in Loaded(secrets) <==> j !in todo {
      if j in todo {
        if j == k { if Less(k, k) { LessAsymmetric(k, k); } } else { LessAsymmetric(k, j); }
      }
    }
  }

  /** The keys of a bundle that are taken, leaving out those still to be visited. */
  ghost function AllImported(bundle: map<string, string>, todo: set<string>, allow: bool): set<string> {
    set k | k in bundle && k !in todo && Imported(k, bundle[k], allow)
  }

  lemma ImportedStep(bundle: map<string, string>, todo: set<string>, k: string, allow: bool)
    requires k in todo && k in bundle
    ensures |AllImported(bundle, todo - {k}, allow)|
         == |AllImported(bundle, todo, allow)| + if Imported(k, bundle[k], allow) then 1 else 0
  {
    var extra: set<string> := if Imported(k, bundle[k], allow) then {k} else {};
    assert AllImported(bundle, todo - {k}, allow) == AllImported(bundle, todo, allow) + extra;
  }

  /** Merging `ks` into `m'` gives what merging `all` into `m` gives, and panics exactly if that does. */
  ghost predicate Leads(m: Secrets, all: seq<string>, m': Secrets, ks: seq<string>, bundle: map<string, string>,
                        allow: bool)
    requires forall k :: k in all || k in ks ==> k in bundle
  {
    var from, now := UntilPanic(all, bundle, allow), UntilPanic(ks, bundle, allow);
    && MergeInto(m', now, bundle, allow) == MergeInto(m, from, bundle, allow)
    && (now == ks <==> from == all)
  }

  lemma MergeCons(m: Secrets, k: string, rest: seq<string>, bundle: map<string, string>, allow: bool)
    requires k in bundle && forall j :: j in rest ==> j in bundle
    ensures MergeInto(m, [k] + rest, bundle, allow)
         == MergeInto(if Imported(k, bundle[k], allow) then m[k := bundle[k]] else m, rest, bundle, allow)
  {
    assert ([k] + rest)[1..] == rest;
  }

  lemma LeadsOn(m: Secrets, all: seq<string>, m': Secrets, k: string, rest: seq<string>, bundle: map<string, string>,
                allow: bool, take: bool)
    requires forall j :: j in all || j in [k] + rest ==> j in bundle
    requires Leads(m, all, m', [k] + rest, bundle, allow)
    requires take == Imported(k, bundle[k], allow) && (take ==> Settable(k, bundle[k]))
    ensures Leads(m, all, if take then m'[k := bundle[k]] else m', rest, bundle, allow)
  {
    assert ([k] + rest)[1..] == rest;
    UntilPanicStep([k] + rest, bundle, allow);
    var reached := UntilPanic(rest, bundle, allow);
    MergeCons(m', k, reached, bundle, allow);
    assert [k] + reached == [k] + rest <==> reached == rest by {
      assert ([k] + reached)[1..] == reached;
    }
  }

  lemma LeadsToPanic(m: Secrets, all: seq<string>, m': Secrets, k: string, rest: seq<string>,
                     bundle: map<string, string>, allow: bool)
    requires forall j :: j in all || j in [k] + rest ==> j in bundle
    requires Leads(m, all, m', [k] + rest, bundle, allow)
    requires Imported(k, bundle[k], allow) && !Settable(k, bundle[k])
    ensures var from := UntilPanic(all, bundle, allow); from != all && MergeInto(m, from, bundle, allow) == m'
  {
    UntilPanicStep([k] + rest, bundle, allow);
  }
}
