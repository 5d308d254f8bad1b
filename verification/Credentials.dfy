/** What a PUT of credentials does, in terms of the values as they are submitted. */
module Credentials {
  import opened Escaping
  import opened KeyOrder
  import opened ManagedKeys
  import opened Pem
  import opened PemKey
  import opened Persistence
  import opened Refusals
  import opened RoundTrip
  import opened SecretsFile
  import opened Text
  import opened Wrappers
  import opened Writers

  // ----- one submitted value -----

  lemma {:induction false} BlankTrims(raw: string)
    ensures Trim(Rust, raw) == [] <==> AllSpace(raw)
  {
    var t := TrimStart(Rust, raw);
    TrimStartShape(Rust, raw);
    TrimEndShape(Rust, t);
    assert t != [] ==> raw[|raw| - |t|] == t[0] && !IsSpace(Rust, t[0]);
  }

  /** The text a value that is not blank comes to: without white space at its ends, and for the private key with its
      PEM block laid out again. */
  function TextOf(key: string, raw: string): Repair {
    if key == PEM_KEY then Normalize(Trim(Rust, raw)) else Repaired(Trim(Rust, raw))
  }

  /** The text begins a PEM block and ends none. */
  predicate CutOff(key: string, raw: string) {
    && !AllSpace(raw) && TextOf(key, raw).Repaired?
    && Contains(TextOf(key, raw).text, BEGIN) && !Contains(TextOf(key, raw).text, END)
  }

  /** The private key cannot be laid out, or the text cannot be put into an environment. */
  predicate Breaks(key: string, raw: string) {
    && !AllSpace(raw) && !CutOff(key, raw)
    && (TextOf(key, raw).Panic? || NUL in TextOf(key, raw).text)
  }

  lemma JudgedAs(key: string, raw: string)
    ensures Judge(key, raw).Remove? <==> AllSpace(raw)
    ensures Judge(key, raw).Truncated? <==> CutOff(key, raw)
    ensures Judge(key, raw).Panics? <==> Breaks(key, raw)
    ensures Judge(key, raw).Keep? ==> TextOf(key, raw) == Repaired(Judge(key, raw).value)
  {
    BlankTrims(raw);
  }

  // ----- an accepted PUT -----

  /** After a successful PUT a blank value has removed its key from the file and, if it was there, from the environment;
      every other value is in both, exactly as submitted but for white space at its ends, and the private key as its
      repair. No other key has changed. */
  lemma {:induction false} PutStoresValues(store: Store, credentials: map<string, string>, diskOk: bool, after: Store)
    requires Healthy(Stored(store.file))
    requires PutAttempt(Stored(store.file), store.env, credentials, diskOk).reply == Done
    requires after == Apply(store, Put(credentials, diskOk))
    ensures forall k :: k in credentials && AllSpace(credentials[k]) ==>
      k !in Stored(after.file) && (k in Stored(store.file) ==> k !in after.env)
    ensures forall k :: k in credentials && !AllSpace(credentials[k]) ==>
      && k in Stored(after.file) && k in after.env && Stored(after.file)[k] == after.env[k]
      && (k != PEM_KEY ==> after.env[k] == Trim(Rust, credentials[k]))
      && (k == PEM_KEY ==> Normalize(Trim(Rust, credentials[k])) == Repaired(after.env[k]))
    ensures forall k :: k !in credentials ==>
      SameEntry(Stored(store.file), Stored(after.file), k) && SameEntry(store.env, after.env, k)
  {
    var d, e := Draft(Stored(store.file), store.env, 0, Done), Draft(Stored(after.file), after.env, 0, Done);
    PutTakesEffect(store, credentials, diskOk, after);
    forall k | k in credentials
      ensures if AllSpace(credentials[k]) then k !in e.secrets && (k in d.secrets ==> k !in e.env)
        else k in e.secrets && k in e.env && e.secrets[k] == e.env[k] && TextOf(k, credentials[k]) == Repaired(e.env[k])
    {
      JudgedAs(k, credentials[k]);
      assert Applied(d, e, k, Judge(k, credentials[k]));
    }
    forall k | k !in credentials ensures SameEntry(d.secrets, e.secrets, k) && SameEntry(d.env, e.env, k) {
      assert Untouched(d, e, k);
    }
  }

  /** It succeeds exactly when every key is managed, no text is cut off or breaks, and the disk takes the file or there
      is nothing to write. */
  lemma {:induction false} PutSucceedsExactly(secrets: Secrets, env: map<string, string>,
                                              credentials: map<string, string>, diskOk: bool)
    ensures PutAttempt(secrets, env, credentials, diskOk).reply == Done <==>
      && (forall k :: k in credentials ==> k in MANAGED_KEYS)
      && (forall k :: k in credentials ==> !CutOff(k, credentials[k]) && !Breaks(k, credentials[k]))
      && (diskOk || forall k :: k in credentials ==> AllSpace(credentials[k]) && k !in secrets)
  {
    PutReply(secrets, env, credentials, diskOk);
    ManagedMeans(credentials);
    forall k | k in credentials
      ensures Bad(Judge(k, credentials[k])) <==> CutOff(k, credentials[k]) || Breaks(k, credentials[k])
      ensures Judge(k, credentials[k]).Remove? <==> AllSpace(credentials[k])
    {
      JudgedAs(k, credentials[k]);
    }
    NoneBadMeans(credentials);
  }

  lemma ManagedMeans(credentials: map<string, string>)
    ensures AllManaged(credentials) <==> forall k :: k in credentials ==> k in MANAGED_KEYS
  {
    forall k ensures IsManaged(k) <==> k in MANAGED_KEYS { }
  }

  lemma NoneBadMeans(credentials: map<string, string>)
    ensures NoneBad(Judged(credentials)) <==> forall k :: k in credentials ==> !Bad(Judge(k, credentials[k]))
  {
    var request := Judged(credentials);
    forall k | k in credentials ensures k in request && request[k] == Judge(k, credentials[k]) { }
  }

  // ----- a refused PUT -----

  ghost predicate FirstToFail(credentials: map<string, string>, k: string) {
    && k in credentials && (CutOff(k, credentials[k]) || Breaks(k, credentials[k]))
    && forall j :: j in credentials && Less(j, k) ==> !CutOff(j, credentials[j]) && !Breaks(j, credentials[j])
  }

  /** It is refused exactly when some key is not managed, or the first value in key order that fails at all is one that
      begins a PEM block and ends none. */
  lemma {:induction false} PutRefusedExactly(secrets: Secrets, env: map<string, string>,
                                             credentials: map<string, string>, diskOk: bool)
    ensures PutAttempt(secrets, env, credentials, diskOk).reply == BadRequest <==>
      || (exists k :: k in credentials && k !in MANAGED_KEYS)
      || (exists k :: FirstToFail(credentials, k) && CutOff(k, credentials[k]))
  {
    ManagedMeans(credentials);
    if AllManaged(credentials) {
      var request := Judged(credentials);
      var stop := RequestOutcome(Draft(secrets, env, 0, Done), request);
      FailsFirst(credentials, request, stop);
    }
  }

  lemma FailsFirst(credentials: map<string, string>, request: Request, stop: Option<string>)
    requires request == Judged(credentials) && EndsAt(request, stop)
    ensures stop.Some? ==> FirstToFail(credentials, stop.value)
    ensures stop.Some? ==> (request[stop.value].Truncated? <==> CutOff(stop.value, credentials[stop.value]))
    ensures forall k :: FirstToFail(credentials, k) ==> stop == Some(k)
  {
    forall k | k in credentials
      ensures k in request && (Bad(request[k]) <==> CutOff(k, credentials[k]) || Breaks(k, credentials[k]))
      ensures request[k].Truncated? <==> CutOff(k, credentials[k])
    {
      JudgedAs(k, credentials[k]);
    }
    if stop.Some? {
      forall j | j in credentials && Less(j, stop.value) ensures !Bad(request[j]) { LessAsymmetric(j, stop.value); }
    }
  }
}
