/** The secrets file: reading any text into a map, rendering a map as text,
    and when reading gives back what was rendered. */
module SecretsFile {
  import opened Escaping
  import opened KeyOrder
  import opened Text
  import opened Wrappers

  type Secrets = map<string, string>

  // ----- is_env_key -----

  predicate EnvChar(c: char) { 'A' <= c <= 'Z' || '0' <= c <= '9' || c == '_' }

  predicate IsEnvKey(k: string) {
    k != [] && (forall c :: c in k ==> EnvChar(c)) && !('0' <= k[0] <= '9')
  }

  // ----- parse_secrets -----

  /** A PEM block being glued back together from the raw lines of an old file. */
  datatype Pem = Pem(key: string, text: string)

  datatype Scan = Scan(found: Secrets, pending: Option<Pem>)

  /** What one raw line of the file does to the scan. */
  function Step(scan: Scan, raw: string): Scan {
    match scan.pending
    case Some(pem) => Glue(scan.found, pem, raw)
    case None => ReadLine(scan.found, raw)
  }

  function Glue(found: Secrets, pem: Pem, raw: string): Scan {
    var text := pem.text + "\n" + TrimEnd(Rust, raw);
    if END <= TrimStart(Rust, raw) then Scan(found[pem.key := text], None)
    else Scan(found, Some(Pem(pem.key, text)))
  }

  function ReadLine(found: Secrets, raw: string): Scan {
    var line := Trim(Rust, raw);
    var eq := IndexOf(line, '=');
    if line == [] || line[0] == '#' || eq == |line| then Scan(found, None)
    else Assign(found, Trim(Rust, line[..eq]), Trim(Rust, line[eq + 1..]))
  }

  function Assign(found: Secrets, key: string, val: string): Scan {
    if !IsEnvKey(key) then Scan(found, None)
    else if OpenPem(val) then Scan(found, Some(Pem(key, val)))
    else Scan(found[key := Unescape(val)], None)
  }

  function Run(scan: Scan, lines: seq<string>): Scan
    decreases lines
  {
    if lines == [] then scan else Run(Step(scan, lines[0]), lines[1..])
  }

  /** An unterminated block is kept as far as it goes. */
  function Finish(scan: Scan): Secrets {
    match scan.pending
    case Some(pem) => scan.found[pem.key := pem.text]
    case None => scan.found
  }

  const FRESH := Scan(map[], None)

  function Scanned(text: string): Scan { Run(FRESH, Lines(text)) }

  function Parse(text: string): Secrets { Finish(Scanned(text)) }

  method ParseSecrets(text: string) returns (secrets: Secrets)
    ensures secrets == Parse(text)
  {
    secrets := map[];
    var pending: Option<Pem> := None;
    var lines := Lines(text);
    var i := 0;
    while i < |lines|
      invariant i <= |lines|
      invariant Run(Scan(secrets, pending), lines[i..]) == Run(FRESH, lines)
    {
      var raw := lines[i];
      ghost var before := Scan(secrets, pending);
      assert lines[i..][1..] == lines[i + 1..];
      i := i + 1;
      if pending.Some? {
        var val := pending.value.text + "\n" + TrimEnd(Rust, raw);
        if END <= TrimStart(Rust, raw) {
          secrets := secrets[pending.value.key := val];
          pending := None;
        } else {
          pending := Some(Pem(pending.value.key, val));
        }
        assert Scan(secrets, pending) == Step(before, raw);
        continue;
      }
      var line := Trim(Rust, raw);
      if line == [] || line[0] == '#' { continue; }
      var eq := IndexOf(line, '=');
      if eq == |line| { continue; }
      var key, val := Trim(Rust, line[..eq]), Trim(Rust, line[eq + 1..]);
      if !IsEnvKey(key) { continue; }
      if OpenPem(val) {
        pending := Some(Pem(key, val));
      } else {
        var plain := UnescapeSecret(val);
        secrets := secrets[key := plain];
      }
      assert Scan(secrets, pending) == Step(before, raw);
    }
    if pending.Some? {
      secrets := secrets[pending.value.key := pending.value.text];
    }
  }

  // ----- write_secrets -----

  const TITLE := "# DRADIS managed " + "secrets \U{2014} written " + "by the Control " + "Tower setup UI."
  const WARNING := "# Do not edit " + "while DRADIS is " + "running; changes " + "apply on restart."

  /** A line without a line break that both readers skip. */
  predicate Comment(line: string) {
    line != [] && line[0] == '#' && forall c :: c in line ==> !LineBreak(c)
  }

  /** Every control character and every other character that ends a line somewhere. */
  predicate LineBreak(c: char) {
    var n := c as int;
    n < 0x20 || n == 0x85 || n == 0x2028 || n == 0x2029
  }

  lemma TitleIsComment() ensures Comment(TITLE) {}

  lemma WarningIsComment() ensures Comment(WARNING) {}

  function Row(k: string, v: string): string { k + "=" + EscapeAll(v) }

  function RenderRows(ks: seq<string>, m: Secrets): string
    requires forall k :: k in ks ==> k in m
  {
    if ks == [] then [] else Row(ks[0], m[ks[0]]) + "\n" + RenderRows(ks[1..], m)
  }

  ghost function RenderUnder(title: string, warning: string, m: Secrets): string {
    title + "\n" + (warning + "\n" + RenderRows(SortedKeys(m.Keys), m))
  }

  ghost function Render(m: Secrets): string {
    RenderUnder(TITLE, WARNING, m)
  }

  lemma RenderFirst(m: Secrets, k: string, rest: seq<string>)
    requires k in m && forall j :: j in rest ==> j in m
    ensures RenderRows([k] + rest, m) == k + "=" + Escape(m[k]) + "\n" + RenderRows(rest, m)
  {
    EscapeIsCharMap(m[k]);
    assert ([k] + rest)[1..] == rest;
  }

  /** One row per key, in ascending order. */
  method WriteRows(m: Secrets) returns (rows: string)
    ensures rows == RenderRows(SortedKeys(m.Keys), m)
  {
    rows := [];
    var todo := m.Keys;
    while todo != {}
      invariant todo <= m.Keys
      invariant rows + RenderRows(SortedKeys(todo), m) == RenderRows(SortedKeys(m.Keys), m)
      decreases todo
    {
      var k := NextKey(todo);
      todo := todo - {k};
      RenderFirst(m, k, SortedKeys(todo));
      var row := k + "=" + Escape(m[k]) + "\n";
      Regroup(rows, row, RenderRows(SortedKeys(todo), m));
      rows := rows + row;
    }
  }

  /** The text the writer hands to the file system. */
  method RenderSecrets(m: Secrets) returns (text: string)
    ensures text == Render(m)
  {
    var rows := WriteRows(m);
    text := TITLE + "\n" + (WARNING + "\n" + rows);
  }
}
