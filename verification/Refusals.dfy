/** What a PUT does to the environment of the process, in particular one that is refused. */
module Refusals {
  import opened KeyOrder
  import opened Persistence
  import opened SecretsFile
  import opened Wrappers
  import opened Writers

  /** Where a request ends: at its first bad key, if it has one. */
  ghost predicate EndsAt(request: Request, stop: Option<string>) {
    match stop
    case None => NoneBad(request)
    case Some(bad) => IsFirstBad(request, bad)
  }

  ghost predicate IsFirstBad(request: Request, bad: string) {
    bad in request && Bad(request[bad]) && forall j :: j in request && Bad(request[j]) ==> j == bad || Less(bad, j)
  }

  /** The entry of this key is dealt with before the request ends. */
  predicate Reached(stop: Option<string>, key: string) { stop.None? || Less(key, stop.value) }

  /** Applying the entry leaves the environment as it is. */
  predicate Inert(secrets: Secrets, env: map<string, string>, key: string, entry: Entry) {
    match entry
    case Keep(v) => key in env && env[key] == v
    case Remove => key in secrets ==> key !in env
    case _ => false
  }

  /** `d` became `e` by applying the entries that are reached, and by nothing else. */
  ghost predicate Became(d: Draft, e: Draft, request: Request, stop: Option<string>) {
    && (forall k :: k in request && Reached(stop, k) ==> Applied(d, e, k, request[k]))
    && (forall k :: !(k in request && Reached(stop, k)) ==> Untouched(d, e, k))
  }

  /** No bad entry is ever applied, so none comes before the one that ended the request. */
  lemma EndsAtFirstBad(d: Draft, e: Draft, request: Request, bad: string)
    requires Became(d, e, request, Some(bad)) && bad in request && Bad(request[bad])
    ensures IsFirstBad(request, bad)
  {
    forall j | j in request && Bad(request[j]) ensures j == bad || Less(bad, j) {
      LessTotal(j, bad);
      assert Reached(Some(bad), j) ==> Applied(d, e, j, request[j]);
    }
  }

  /** Exactly the entries before the first bad one are applied, and nothing else changes. */
  lemma RequestOutcome(d: Draft, request: Request) returns (stop: Option<string>)
    requires d.reply == Done
    ensures var e := PutAll(d, SortedKeys(request.Keys), request);
      && EndsAt(request, stop) && Became(d, e, request, stop)
      && e.reply == if stop.None? then Done else Refusal(request[stop.value])
  {
    var e := PutAll(d, SortedKeys(request.Keys), request);
    if NoneBad(request) {
      RequestSucceeds(d, request);
      stop := None;
    } else {
      var bad := RequestFails(d, request);
      stop := Some(bad);
      assert Became(d, e, request, stop);
      EndsAtFirstBad(d, e, request, bad);
    }
  }

  /** Applying an entry leaves the environment alone at its key exactly when the entry is inert. */
  lemma AppliedIsInert(d: Draft, e: Draft, key: string, entry: Entry)
    requires Applied(d, e, key, entry)
    ensures SameEntry(d.env, e.env, key) <==> Inert(d.secrets, d.env, key, entry)
  {
  }

  ghost predicate AllInert(secrets: Secrets, env: map<string, string>, request: Request, stop: Option<string>) {
    forall k :: k in request && Reached(stop, k) ==> Inert(secrets, env, k, request[k])
  }

  /** The environment is unchanged exactly when every entry that is reached is inert. */
  lemma EnvUnchangedExactly(d: Draft, e: Draft, request: Request, stop: Option<string>)
    requires Became(d, e, request, stop)
    ensures e.env == d.env <==> AllInert(d.secrets, d.env, request, stop)
  {
    forall k | k in request && Reached(stop, k)
      ensures SameEntry(d.env, e.env, k) <==> Inert(d.secrets, d.env, k, request[k])
    {
      AppliedIsInert(d, e, k, request[k]);
    }
    if AllInert(d.secrets, d.env, request, stop) {
      forall k ensures SameEntry(d.env, e.env, k) {
        if k in request && Reached(stop, k) {
          assert Inert(d.secrets, d.env, k, request[k]);
        } else {
          assert Untouched(d, e, k);
        }
      }
      SameEverywhere(d.env, e.env);
    }
  }

  lemma SameEverywhere(m: map<string, string>, n: map<string, string>)
    requires forall k :: SameEntry(m, n, k)
    ensures m == n
  {
    forall k ensures k in m <==> k in n { assert SameEntry(m, n, k); }
    forall k | k in m ensures m[k] == n[k] { assert SameEntry(m, n, k); }
  }

  /** The outcome of a refused request in terms of the submitted credentials. */
  lemma RefusedEnv(d: Draft, e: Draft, credentials: map<string, string>, request: Request, bad: string)
    requires request == Judged(credentials) && IsFirstBad(request, bad) && Became(d, e, request, Some(bad))
    ensures forall k :: k in credentials && Bad(Judge(k, credentials[k])) ==> k == bad || Less(bad, k)
    ensures forall k :: k in credentials && Less(k, bad) ==>
      match Judge(k, credentials[k])
      case Keep(v) => k in e.env && e.env[k] == v
      case Remove => if k in d.secrets then k !in e.env else SameEntry(d.env, e.env, k)
      case _ => false
    ensures forall k :: k !in credentials || !Less(k, bad) ==> SameEntry(d.env, e.env, k)
    ensures AllInert(d.secrets, d.env, request, Some(bad)) <==>
      forall k :: k in credentials && Less(k, bad) ==> Inert(d.secrets, d.env, k, Judge(k, credentials[k]))
  {
    assert forall k :: k in credentials ==> k in request && request[k] == Judge(k, credentials[k]);
    forall k | k in credentials && Less(k, bad)
      ensures Applied(d, e, k, Judge(k, credentials[k]))
      ensures Inert(d.secrets, d.env, k, request[k]) == Inert(d.secrets, d.env, k, Judge(k, credentials[k]))
    {
      assert k in request && Reached(Some(bad), k);
    }
    forall k | k !in credentials || !Less(k, bad) ensures SameEntry(d.env, e.env, k) {
      assert Untouched(d, e, k);
    }
  }

  /** A refused PUT leaves the file alone, but it has already put the entries before the first bad one into the
      environment: until the next restart the process runs with credentials that are not on disk, and without
      some that are. It changes nothing exactly when all of those entries are inert. */
  lemma RefusedPut(store: Store, credentials: map<string, string>, diskOk: bool) returns (bad: string, after: Store)
    requires AllManaged(credentials) && !NoneBad(Judged(credentials))
    ensures after == Apply(store, Put(credentials, diskOk)) && after.file == store.file
    ensures bad in credentials && Bad(Judge(bad, credentials[bad]))
    ensures forall k :: k in credentials && Bad(Judge(k, credentials[k])) ==> k == bad || Less(bad, k)
    ensures PutAttempt(Stored(store.file), store.env, credentials, diskOk).reply
      == Refusal(Judge(bad, credentials[bad]))
    ensures forall k :: k in credentials && Less(k, bad) ==>
      match Judge(k, credentials[k])
      case Keep(v) => k in after.env && after.env[k] == v
      case Remove => if k in Stored(store.file) then k !in after.env else SameEntry(store.env, after.env, k)
      case _ => false
    ensures forall k :: k !in credentials || !Less(k, bad) ==> SameEntry(store.env, after.env, k)
    ensures after.env == store.env <==>
      forall k :: k in credentials && Less(k, bad) ==> Inert(Stored(store.file), store.env, k, Judge(k, credentials[k]))
  {
    var d, request := Draft(Stored(store.file), store.env, 0, Done), Judged(credentials);
    var e := PutAll(d, SortedKeys(request.Keys), request);
    var stop := RequestOutcome(d, request);
    bad, after := stop.value, Apply(store, Put(credentials, diskOk));
    assert after == Store(store.file, e.env);
    EnvUnchangedExactly(d, e, request, stop);
    RefusedEnv(d, e, credentials, request, bad);
  }
}
