/** The operations on the secrets file and the process environment, as functions on their values. */
module Writers {
  import opened Escaping
  import opened KeyOrder
  import opened ManagedKeys
  import opened Pem
  import opened SecretsFile
  import opened Text
  import opened Tokens
  import opened Wrappers

  /** The file on disk, if there is one, and the environment of the running process. */
  datatype Store = Store(file: Option<string>, env: map<string, string>)

  function Stored(file: Option<string>): Secrets {
    match file
    case Some(text) => Parse(text)
    case None => map[]
  }

  datatype Reply = Done | BadRequest | Failed | Crashed

  /** What an operation makes of the secrets it read: the map it wants on disk, the environment it
      leaves behind, whether it got as far as replacing the file, and its answer. */
  datatype Attempt = Attempt(secrets: Secrets, env: map<string, string>, written: bool, reply: Reply)

  datatype Op =
    | Put(credentials: map<string, string>, diskOk: bool)
    // A successful `set_admin` goes on to issue a token, which is a `UseSessionKey` of its own.
    | SetAdmin(password: string, hash: Option<string>, diskOk: bool)
    | UseSessionKey(random: seq<Octet>, diskOk: bool)
    | Autonomy(tier: Option<int>, kill: Option<bool>, diskOk: bool)
    | Merge(bundle: map<string, string>, allowAdminHash: bool, diskOk: bool)
    | Restart(launchEnv: map<string, string>)

  // ----- environment variables -----

  const NUL := '\U{0}'

  /** What `set_var` accepts; on anything else it panics. */
  predicate Settable(key: string, value: string) {
    key != [] && '=' !in key && NUL !in key && NUL !in value
  }

  predicate AllSettable(vars: map<string, string>) {
    forall k :: k in vars ==> Settable(k, vars[k])
  }

  // ----- put_credentials -----

  predicate LooksTruncated(value: string) {
    Contains(value, BEGIN) && !Contains(value, END)
  }

  /** What one submitted value asks for. The keys are managed ones, so only the value can make `set_var` panic. */
  datatype Entry = Remove | Keep(value: string) | Truncated | Panics

  function Judge(key: string, raw: string): Entry {
    var value := Trim(Rust, raw);
    if value == [] then Remove else JudgeValue(key, value)
  }

  function JudgeValue(key: string, value: string): Entry {
    match (if key == PEM_KEY then Normalize(value) else Repaired(value))
    case Panic => Panics
    case Repaired(v) => if LooksTruncated(v) then Truncated else if NUL in v then Panics else Keep(v)
  }

  type Request = map<string, Entry>

  function Judged(credentials: map<string, string>): Request {
    map k | k in credentials :: Judge(k, credentials[k])
  }

  datatype Draft = Draft(secrets: Secrets, env: map<string, string>, changed: nat, reply: Reply)

  function PutOne(d: Draft, key: string, entry: Entry): Draft {
    match entry
    case Remove => if key in d.secrets then Draft(d.secrets - {key}, d.env - {key}, d.changed + 1, Done) else d
    case Keep(v) => Draft(d.secrets[key := v], d.env[key := v], d.changed + 1, Done)
    case Truncated => d.(reply := BadRequest)
    case Panics => d.(reply := Reply.Crashed)
  }

  /** The entries one by one, until one of them ends the request. */
  function PutAll(d: Draft, ks: seq<string>, request: Request): Draft
    requires forall k :: k in ks ==> k in request
    decreases ks
  {
    if ks == [] || d.reply != Done then d
    else PutAll(PutOne(d, ks[0], request[ks[0]]), ks[1..], request)
  }

  predicate AllManaged(credentials: map<string, string>) {
    forall k {:trigger IsManaged(k)} :: k in credentials ==> IsManaged(k)
  }

  ghost function PutAttempt(secrets: Secrets, env: map<string, string>, credentials: map<string, string>, diskOk: bool)
    : Attempt
  {
    if !AllManaged(credentials) then Attempt(secrets, env, false, BadRequest)
    else PutRequest(secrets, env, Judged(credentials), diskOk)
  }

  ghost function PutRequest(secrets: Secrets, env: map<string, string>, request: Request, diskOk: bool): Attempt {
    var d := PutAll(Draft(secrets, env, 0, Done), SortedKeys(request.Keys), request);
    if d.reply != Done || d.changed == 0 then Attempt(secrets, d.env, false, d.reply)
    else Attempt(d.secrets, d.env, diskOk, if diskOk then Done else Failed)
  }

  // ----- set_admin -----

  function AdminAttempt(secrets: Secrets, env: map<string, string>, password: string, hash: Option<string>,
                        diskOk: bool): Attempt
  {
    if ByteLength(password) < 8 then Attempt(secrets, env, false, BadRequest)
    else
      match hash
      case None => Attempt(secrets, env, false, Failed)
      case Some(h) =>
        var s := secrets[ADMIN_HASH := h];
        if !diskOk then Attempt(s, env, false, Failed)
        else if NUL in h then Attempt(s, env, true, Reply.Crashed)
        else Attempt(s, env[ADMIN_HASH := h], true, Done)
  }

  // ----- session_key -----

  /** The key on file, if it is one: at least 32 octets of hexadecimal. */
  function UsableKey(secrets: Secrets): Option<seq<Octet>> {
    if SESSION_KEY !in secrets then None
    else
      match HexDecode(secrets[SESSION_KEY])
      case Octets(bytes) => if |bytes| >= 32 then Some(bytes) else None
      case _ => None
  }

  predicate KeyCrashes(secrets: Secrets) {
    SESSION_KEY in secrets && HexDecode(secrets[SESSION_KEY]).Panic?
  }

  function SessionKey(secrets: Secrets, random: seq<Octet>): seq<Octet> {
    match UsableKey(secrets)
    case Some(key) => key
    case None => random
  }

  function SessionAttempt(secrets: Secrets, env: map<string, string>, random: seq<Octet>, diskOk: bool): Attempt {
    if KeyCrashes(secrets) then Attempt(secrets, env, false, Reply.Crashed)
    else if UsableKey(secrets).Some? then Attempt(secrets, env, false, Done)
    else Attempt(secrets[SESSION_KEY := HexEncode(random)], env, diskOk, Done)
  }

  // ----- put_autonomy -----

  const TIER_KEY := "LLM_AUTONOMY_TIER"
  const KILL_KEY := "LLM_AUTONOMY_KILL"

  function With(m: map<string, string>, key: string, value: Option<string>): map<string, string> {
    match value
    case Some(v) => m[key := v]
    case None => m
  }

  function TierText(tier: Option<int>): Option<string> {
    if tier.Some? then Some(Decimal(tier.value)) else None
  }

  function KillText(kill: Option<bool>): Option<string> {
    if kill.Some? then Some(if kill.value then "1" else "0") else None
  }

  function AutonomyAttempt(secrets: Secrets, env: map<string, string>, tier: Option<int>, kill: Option<bool>,
                           diskOk: bool): Attempt
  {
    if tier.Some? && !(1 <= tier.value <= 3) then Attempt(secrets, env, false, BadRequest)
    else
      var t, k := TierText(tier), KillText(kill);
      var s := With(With(secrets, TIER_KEY, t), KILL_KEY, k);
      var e := With(With(env, TIER_KEY, t), KILL_KEY, k);
      if tier.None? && kill.None? then Attempt(s, e, false, Done)
      else Attempt(s, e, diskOk, if diskOk then Done else Failed)
  }

  // ----- merge_secrets -----

  const LLM_PREFIX := "LLM_"

  predicate Imported(k: string, v: string, allowAdminHash: bool) {
    (IsManaged(k) || (allowAdminHash && k == ADMIN_HASH) || LLM_PREFIX <= k) && v != []
  }

  function MergeInto(m: map<string, string>, ks: seq<string>, bundle: map<string, string>, allow: bool)
    : map<string, string>
    requires forall k :: k in ks ==> k in bundle
    decreases ks
  {
    if ks == [] then m
    else
      var next := if Imported(ks[0], bundle[ks[0]], allow) then m[ks[0] := bundle[ks[0]]] else m;
      MergeInto(next, ks[1..], bundle, allow)
  }

  /** The keys up to the first imported one that cannot be set. */
  function UntilPanic(ks: seq<string>, bundle: map<string, string>, allow: bool): (r: seq<string>)
    requires forall k :: k in ks ==> k in bundle
    ensures r <= ks && forall k :: k in r ==> k in ks
  {
    if ks == [] || (Imported(ks[0], bundle[ks[0]], allow) && !Settable(ks[0], bundle[ks[0]])) then []
    else [ks[0]] + UntilPanic(ks[1..], bundle, allow)
  }

  ghost function MergeAttempt(secrets: Secrets, env: map<string, string>, bundle: map<string, string>, allow: bool,
                              diskOk: bool): Attempt
  {
    var all := SortedKeys(bundle.Keys);
    var ks := UntilPanic(all, bundle, allow);
    var s, e := MergeInto(secrets, ks, bundle, allow), MergeInto(env, ks, bundle, allow);
    if ks != all then Attempt(s, e, false, Reply.Crashed) else Attempt(s, e, diskOk, if diskOk then Done else Failed)
  }

  lemma UntilPanicStep(ks: seq<string>, bundle: map<string, string>, allow: bool)
    requires ks != [] && forall k :: k in ks ==> k in bundle
    ensures var stop := Imported(ks[0], bundle[ks[0]], allow) && !Settable(ks[0], bundle[ks[0]]);
      UntilPanic(ks, bundle, allow) == if stop then [] else [ks[0]] + UntilPanic(ks[1..], bundle, allow)
  {
  }

  // ----- one step and whole runs -----

  /** What `load_secrets_file` sets: everything, or what comes before the first value that cannot be set. */
  function Loaded(secrets: Secrets): Secrets {
    map k | k in secrets && (forall j :: j in secrets && !Settable(j, secrets[j]) ==> Less(k, j)) :: secrets[k]
  }

  /** A restart forgets the environment, then `load_secrets_file` lets the file override the new one. */
  function RestartAttempt(secrets: Secrets, launchEnv: map<string, string>): Attempt {
    Attempt(secrets, launchEnv + Loaded(secrets), false, if AllSettable(secrets) then Done else Reply.Crashed)
  }

  lemma LoadedAll(secrets: Secrets)
    requires AllSettable(secrets)
    ensures Loaded(secrets) == secrets
  {
  }

  ghost function AttemptOf(secrets: Secrets, env: map<string, string>, op: Op): Attempt {
    match op
    case Put(credentials, diskOk) => PutAttempt(secrets, env, credentials, diskOk)
    case SetAdmin(password, hash, diskOk) => AdminAttempt(secrets, env, password, hash, diskOk)
    case UseSessionKey(random, diskOk) => SessionAttempt(secrets, env, random, diskOk)
    case Autonomy(tier, kill, diskOk) => AutonomyAttempt(secrets, env, tier, kill, diskOk)
    case Merge(bundle, allow, diskOk) => MergeAttempt(secrets, env, bundle, allow, diskOk)
    case Restart(launchEnv) => RestartAttempt(secrets, launchEnv)
  }

  /** Every writer reads the file, changes the map and writes the whole map back. */
  ghost function Apply(store: Store, op: Op): Store {
    Commit(store, AttemptOf(Stored(store.file), store.env, op))
  }

  ghost function Commit(store: Store, a: Attempt): Store {
    Store(if a.written then Some(Render(a.secrets)) else store.file, a.env)
  }

  ghost function RunOps(store: Store, ops: seq<Op>): Store {
    if ops == [] then store else Apply(RunOps(store, ops[..|ops| - 1]), ops[|ops| - 1])
  }

  /** The same operations on a map that needs no file. */
  datatype Ideal = Ideal(secrets: Secrets, env: map<string, string>)

  ghost function IdealApply(i: Ideal, op: Op): Ideal {
    var a := AttemptOf(i.secrets, i.env, op);
    Ideal(if a.written then a.secrets else i.secrets, a.env)
  }

  ghost function IdealRun(i: Ideal, ops: seq<Op>): Ideal {
    if ops == [] then i else IdealApply(IdealRun(i, ops[..|ops| - 1]), ops[|ops| - 1])
  }
}
