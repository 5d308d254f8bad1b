/** What each of the other writers leaves in the file and in the environment, in plain terms. */
module WriterEffects {
  import opened Escaping
  import opened Imports
  import opened KeyOrder
  import opened ManagedKeys
  import opened Persistence
  import opened RoundTrip
  import opened SecretsFile
  import opened Text
  import opened TokenAcceptance
  import opened Tokens
  import opened Wrappers
  import opened Writers

  // ----- put_autonomy -----

  ghost predicate Holds(m: map<string, string>, k: string, v: string) { k in m && m[k] == v }

  /** `n` is `m` with these values under the two keys of the autonomy controls, as far as they are given. */
  ghost predicate Controls(m: map<string, string>, n: map<string, string>, tier: Option<int>, kill: Option<bool>) {
    && (tier.None? ==> SameEntry(m, n, "LLM_AUTONOMY_TIER"))
    && (tier == Some(1) ==> Holds(n, "LLM_AUTONOMY_TIER", "1"))
    && (tier == Some(2) ==> Holds(n, "LLM_AUTONOMY_TIER", "2"))
    && (tier == Some(3) ==> Holds(n, "LLM_AUTONOMY_TIER", "3"))
    && (kill.None? ==> SameEntry(m, n, "LLM_AUTONOMY_KILL"))
    && (kill == Some(true) ==> Holds(n, "LLM_AUTONOMY_KILL", "1"))
    && (kill == Some(false) ==> Holds(n, "LLM_AUTONOMY_KILL", "0"))
    && forall k :: k != "LLM_AUTONOMY_TIER" && k != "LLM_AUTONOMY_KILL" ==> SameEntry(m, n, k)
  }

  lemma TierTexts(tier: int)
    requires 1 <= tier <= 3
    ensures Decimal(tier) == if tier == 1 then "1" else if tier == 2 then "2" else "3"
  {
  }

  lemma WithControls(m: map<string, string>, tier: Option<int>, kill: Option<bool>)
    requires tier.Some? ==> 1 <= tier.value <= 3
    ensures Controls(m, With(With(m, TIER_KEY, TierText(tier)), KILL_KEY, KillText(kill)), tier, kill)
  {
    assert |TIER_KEY| == |KILL_KEY| && TIER_KEY[13] != KILL_KEY[13];
    if tier.Some? { TierTexts(tier.value); }
  }

  /** A tier outside 1 to 3 is refused and changes nothing. Otherwise the controls that are given are set in the
      environment, and if the disk takes them on file; nothing else changes. */
  lemma {:induction false} AutonomySetsControls(store: Store, tier: Option<int>, kill: Option<bool>, diskOk: bool,
                                                after: Store, reply: Reply)
    requires Healthy(Stored(store.file)) && after == Apply(store, Autonomy(tier, kill, diskOk))
    requires reply == AutonomyAttempt(Stored(store.file), store.env, tier, kill, diskOk).reply
    ensures reply == BadRequest <==> tier.Some? && !(1 <= tier.value <= 3)
    ensures reply == BadRequest ==> after == store
    ensures reply != BadRequest ==> Controls(store.env, after.env, tier, kill)
    ensures reply == Done ==> Controls(Stored(store.file), Stored(after.file), tier, kill)
    ensures reply != Done ==> after.file == store.file
    ensures reply == Failed <==> reply != BadRequest && (tier.Some? || kill.Some?) && !diskOk
    ensures reply != Reply.Crashed
  {
    ApplyRefines(store, Autonomy(tier, kill, diskOk));
    if !(tier.Some? && !(1 <= tier.value <= 3)) {
      WithControls(store.env, tier, kill);
      WithControls(Stored(store.file), tier, kill);
    }
  }

  // ----- set_admin -----

  /** A password of at least eight bytes whose hash is text is accepted if the disk takes it: the file and the
      environment then hold exactly that hash, and nothing else has changed. Otherwise the environment is as before,
      and so is the file, unless the hash could not be put into the environment. */
  lemma {:induction false} AdminSetsHash(store: Store, password: string, hash: Option<string>, diskOk: bool,
                                         after: Store, reply: Reply)
    requires after == Apply(store, Op.SetAdmin(password, hash, diskOk))
    requires reply == AdminAttempt(Stored(store.file), store.env, password, hash, diskOk).reply
    ensures reply == Done <==> ByteLength(password) >= 8 && hash.Some? && diskOk && '\U{0}' !in hash.value
    ensures reply == BadRequest <==> ByteLength(password) < 8
    ensures reply == Done ==> after.env == store.env["DRADIS_ADMIN_HASH" := hash.value]
    ensures reply == Done ==> after.file == Some(Render(Stored(store.file)["DRADIS_ADMIN_HASH" := hash.value]))
    ensures reply == Done && Healthy(Stored(store.file)) && Admissible(hash.value) ==>
      Stored(after.file) == Stored(store.file)["DRADIS_ADMIN_HASH" := hash.value]
    ensures reply != Done ==> after.env == store.env && (reply != Reply.Crashed ==> after.file == store.file)
  {
    if reply == Done && Healthy(Stored(store.file)) && Admissible(hash.value) {
      InternalKeysAreEnvKeys();
      HealthyInsert(Stored(store.file), ADMIN_HASH, hash.value);
      HealthyRoundTrip(Stored(store.file)[ADMIN_HASH := hash.value]);
    }
  }

  // ----- session_key -----

  /** The file holds a key of at least 32 octets in hexadecimal. */
  ghost predicate KeepsKey(m: Secrets, key: seq<Octet>) {
    "DRADIS_SESSION_KEY" in m && IsHexOf(m["DRADIS_SESSION_KEY"], key) && |key| >= 32
  }

  /** Such a key is used, and the file is left alone. Without one the random bytes are the key, and they are put on file
      in place of whatever is there; unless what is there makes the program crash. */
  lemma {:induction false} SessionKeyExactly(store: Store, random: seq<Octet>, diskOk: bool, after: Store)
    requires after == Apply(store, UseSessionKey(random, diskOk))
    ensures forall key :: KeepsKey(Stored(store.file), key) ==>
      SessionKey(Stored(store.file), random) == key && after == store && !KeyCrashes(Stored(store.file))
    ensures (forall key :: !KeepsKey(Stored(store.file), key)) && !KeyCrashes(Stored(store.file)) ==>
      && SessionKey(Stored(store.file), random) == random && after.env == store.env
      && after.file == if diskOk then Some(Render(Stored(store.file)["DRADIS_SESSION_KEY" := HexEncode(random)]))
                       else store.file
  {
    var m := Stored(store.file);
    if SESSION_KEY in m { UsableExactly(m); }
  }

  lemma UsableExactly(m: Secrets)
    requires SESSION_KEY in m
    ensures forall key :: KeepsKey(m, key) ==> UsableKey(m) == Some(key) && !KeyCrashes(m)
    ensures UsableKey(m).Some? ==> KeepsKey(m, UsableKey(m).value)
  {
    var s := m[SESSION_KEY];
    forall key | KeepsKey(m, key) ensures HexDecode(s) == Octets(key) { HexDecodesExactly(s, key); }
    match HexDecode(s)
    case Octets(bytes) => HexDecodesExactly(s, bytes);
    case _ =>
  }

  // ----- merge_secrets -----

  /** A credential the setup screens may write, an autonomy knob, or, if that is allowed, the password hash; and not
      empty. */
  ghost predicate IsTaken(bundle: map<string, string>, allow: bool, k: string) {
    && k in bundle && bundle[k] != ""
    && (k in MANAGED_KEYS || (|k| >= 4 && k[0] == 'L' && k[1] == 'L' && k[2] == 'M' && k[3] == '_')
        || (allow && k == "DRADIS_ADMIN_HASH"))
  }

  /** What cannot be put into an environment. */
  predicate Unfit(k: string, v: string) { k == "" || '=' in k || '\U{0}' in k || '\U{0}' in v }

  lemma ImportedIsTaken(bundle: map<string, string>, allow: bool, k: string)
    requires k in bundle
    ensures Imported(k, bundle[k], allow) <==> IsTaken(bundle, allow, k)
    ensures CannotSet(bundle, allow, k) <==> IsTaken(bundle, allow, k) && Unfit(k, bundle[k])
  {
    PrefixSpelled(k);
    assert IsManaged(k) <==> k in MANAGED_KEYS;
  }

  lemma PrefixSpelled(k: string)
    ensures LLM_PREFIX <= k <==> |k| >= 4 && k[0] == 'L' && k[1] == 'L' && k[2] == 'M' && k[3] == '_'
  {
    if |k| >= 4 { assert k[..4] == [k[0], k[1], k[2], k[3]]; }
  }

  /** `n` is `m` with the taken entries laid over it. */
  ghost predicate Takes(m: map<string, string>, n: map<string, string>, bundle: map<string, string>, allow: bool) {
    && (forall k :: IsTaken(bundle, allow, k) ==> Holds(n, k, bundle[k]))
    && (forall k :: !IsTaken(bundle, allow, k) ==> SameEntry(m, n, k))
  }

  lemma MergeTakes(m: map<string, string>, bundle: map<string, string>, allow: bool, ks: seq<string>)
    requires forall k :: k in ks <==> k in bundle
    ensures Takes(m, MergeInto(m, ks, bundle, allow), bundle, allow)
  {
    var n := MergeInto(m, ks, bundle, allow);
    MergeOverlays(m, ks, bundle, allow);
    forall k
      ensures IsTaken(bundle, allow, k) ==> Holds(n, k, bundle[k])
      ensures !IsTaken(bundle, allow, k) ==> SameEntry(m, n, k)
    {
      if k in bundle { ImportedIsTaken(bundle, allow, k); }
    }
  }

  /** An import crashes exactly if an entry it takes cannot be put into the environment, and then writes nothing.
      Otherwise all entries it takes, and no others, are in the environment and in the map it writes. */
  lemma {:induction false} ImportTakesExactly(m: Secrets, env: map<string, string>, bundle: map<string, string>,
                                              allow: bool, diskOk: bool, a: Attempt)
    requires a == MergeAttempt(m, env, bundle, allow, diskOk)
    ensures a.reply == Reply.Crashed <==> exists k :: IsTaken(bundle, allow, k) && Unfit(k, bundle[k])
    ensures a.reply == Reply.Crashed ==> !a.written
    ensures a.reply != Reply.Crashed ==> Takes(env, a.env, bundle, allow) && Takes(m, a.secrets, bundle, allow)
    ensures a.reply != Reply.Crashed ==> a.written == diskOk && a.reply == if diskOk then Done else Failed
  {
    var all := SortedKeys(bundle.Keys);
    GetsToMembers(bundle, allow, all);
    forall k | k in bundle
      ensures CannotSet(bundle, allow, k) <==> IsTaken(bundle, allow, k) && Unfit(k, bundle[k])
    {
      ImportedIsTaken(bundle, allow, k);
    }
    MergeTakes(env, bundle, allow, all);
    MergeTakes(m, bundle, allow, all);
  }

  // ----- a restart -----

  /** A start fails exactly if the file holds an entry that cannot be put into the environment. The environment is that
      of the launch, overridden by the entries before the first such one, which without one are all. */
  lemma {:induction false} RestartExactly(secrets: Secrets, launchEnv: map<string, string>, a: Attempt)
    requires a == RestartAttempt(secrets, launchEnv)
    ensures a.reply == (if exists j :: j in secrets && Unfit(j, secrets[j]) then Reply.Crashed else Done)
    ensures forall k :: k in secrets && (forall j :: j in secrets && Unfit(j, secrets[j]) ==> Less(k, j)) ==>
      Holds(a.env, k, secrets[k])
    ensures forall k :: !(k in secrets && (forall j :: j in secrets && Unfit(j, secrets[j]) ==> Less(k, j))) ==>
      SameEntry(launchEnv, a.env, k)
  {
    assert forall j :: j in secrets ==> (Settable(j, secrets[j]) <==> !Unfit(j, secrets[j]));
  }
}
