/** The second reader of the secrets file: the key-sharding script written in Python. */
module PythonReader {
  import opened Escaping
  import opened SecretsFile
  import opened Text
  import opened Wrappers
  import opened Writers

  // ----- reading lines -----

  /** Text mode turns `\r\n` and a lone `\r` into `\n`. */
  function UniversalNewlines(s: string): string {
    if s == [] then []
    else if s[0] != '\r' then [s[0]] + UniversalNewlines(s[1..])
    else if |s| > 1 && s[1] == '\n' then "\n" + UniversalNewlines(s[2..])
    else "\n" + UniversalNewlines(s[1..])
  }

  /** The separators of `str.splitlines` that are not the usual line breaks. */
  predicate ExtraBreak(c: char) {
    var n := c as int;
    n == 0x0B || n == 0x0C || 0x1C <= n <= 0x1E || n == 0x85 || n == 0x2028 || n == 0x2029
  }

  predicate PyBreak(c: char) { c == '\n' || c == '\r' || ExtraBreak(c) }

  function FirstBreak(s: string): (i: nat)
    ensures i <= |s| && (i < |s| ==> PyBreak(s[i])) && forall j :: 0 <= j < i ==> !PyBreak(s[j])
  {
    if s == [] || PyBreak(s[0]) then 0 else 1 + FirstBreak(s[1..])
  }

  /** `str.splitlines` on text in which every `\r` has already been translated. */
  function PyLines(s: string): seq<string> {
    if s == [] then []
    else
      var i := FirstBreak(s);
      if i == |s| then [s] else [s[..i]] + PyLines(s[i + 1..])
  }

  // ----- unescape -----

  function PyUnescape(v: string): string {
    if v == [] then []
    else if v[0] != '\\' then [v[0]] + PyUnescape(v[1..])
    else if |v| == 1 then v
    else PyPair(v[1]) + PyUnescape(v[2..])
  }

  function PyPair(c: char): string {
    if c == 'n' then "\n" else if c == 'r' then "\r" else if c == 't' then "\t"
    else if c == '\\' then "\\" else ['\\', c]
  }

  lemma PyUnescapeFrom(v: string, i: nat)
    requires i < |v|
    ensures PyUnescape(v[i..]) ==
      if v[i] == '\\' && i + 1 < |v| then PyPair(v[i + 1]) + PyUnescape(v[i + 2..]) else [v[i]] + PyUnescape(v[i + 1..])
  {
    var from := v[i..];
    assert from[1..] == v[i + 1..];
    if i + 1 < |v| {
      assert from[2..] == v[i + 2..] && from[1] == v[i + 1];
    } else {
      assert from == [v[i]];
    }
  }

  method UnescapeText(v: string) returns (out: string)
    ensures out == PyUnescape(v)
  {
    out := [];
    var i := 0;
    while i < |v|
      invariant i <= |v|
      invariant out + PyUnescape(v[i..]) == PyUnescape(v)
    {
      PyUnescapeFrom(v, i);
      var piece := [v[i]];
      i := i + 1;
      if piece == "\\" && i < |v| {
        piece := PyPair(v[i]);
        i := i + 1;
      }
      Regroup(out, piece, PyUnescape(v[i..]));
      out := out + piece;
    }
  }

  // ----- load_secrets -----

  datatype Block = Block(key: string, lines: seq<string>)

  /** `raised` once an assignment to `os.environ` has ended the program. */
  datatype PyScan = PyScan(vars: Secrets, pending: Option<Block>, raised: bool)

  /** What `os.environ` accepts; a key read from the file never holds an equals sign. */
  predicate Assignable(key: string, value: string) { key != [] && NUL !in key && NUL !in value }

  function SetVar(vars: Secrets, key: string, value: string): PyScan {
    if Assignable(key, value) then PyScan(vars[key := value], None, false) else PyScan(vars, None, true)
  }

  function Join(lines: seq<string>): string
    requires lines != []
  {
    if |lines| == 1 then lines[0] else Join(lines[..|lines| - 1]) + "\n" + lines[|lines| - 1]
  }

  function PyStep(scan: PyScan, raw: string): (r: PyScan)
    requires scan.pending.Some? ==> scan.pending.value.lines != []
    ensures r.pending.Some? ==> r.pending.value.lines != []
  {
    if scan.raised then scan
    else
      match scan.pending
      case Some(b) => PyGlue(scan.vars, b, raw)
      case None => PyReadLine(scan.vars, raw)
  }

  function PyGlue(vars: Secrets, b: Block, raw: string): (r: PyScan)
    requires b.lines != []
    ensures r.pending.Some? ==> r.pending.value.lines != []
  {
    var lines := b.lines + [TrimEnd(Python, raw)];
    if END <= Trim(Python, raw) then SetVar(vars, b.key, Join(lines))
    else PyScan(vars, Some(Block(b.key, lines)), false)
  }

  function PyReadLine(vars: Secrets, raw: string): (r: PyScan)
    ensures r.pending.Some? ==> r.pending.value.lines != []
  {
    var line := Trim(Python, raw);
    var eq := IndexOf(line, '=');
    if line == [] || line[0] == '#' || eq == |line| then PyScan(vars, None, false)
    else
      var key, val := Trim(Python, line[..eq]), Trim(Python, line[eq + 1..]);
      if OpenPem(val) then PyScan(vars, Some(Block(key, [val])), false) else SetVar(vars, key, PyUnescape(val))
  }

  function PyRun(scan: PyScan, lines: seq<string>): (r: PyScan)
    requires scan.pending.Some? ==> scan.pending.value.lines != []
    ensures r.pending.Some? ==> r.pending.value.lines != []
    decreases lines
  {
    if lines == [] then scan else PyRun(PyStep(scan, lines[0]), lines[1..])
  }

  lemma PyRunFrom(scan: PyScan, lines: seq<string>, i: nat)
    requires i < |lines| && (scan.pending.Some? ==> scan.pending.value.lines != [])
    ensures PyRun(scan, lines[i..]) == PyRun(PyStep(scan, lines[i]), lines[i + 1..])
  {
    assert lines[i..][1..] == lines[i + 1..];
  }

  lemma {:induction false} PyRunRaised(scan: PyScan, lines: seq<string>)
    requires scan.raised && (scan.pending.Some? ==> scan.pending.value.lines != [])
    ensures PyRun(scan, lines) == scan
    decreases lines
  {
    if lines != [] { PyRunRaised(scan, lines[1..]); }
  }

  function PyFinish(scan: PyScan): PyScan
    requires scan.pending.Some? ==> scan.pending.value.lines != []
  {
    if scan.raised then scan
    else
      match scan.pending
      case Some(b) => SetVar(scan.vars, b.key, Join(b.lines))
      case None => scan
  }

  const START := PyScan(map[], None, false)

  function PyScanned(text: string): PyScan {
    PyFinish(PyRun(START, PyLines(UniversalNewlines(text))))
  }

  /** The variables the script assigns, each with the last value given to it. */
  function PyParse(text: string): Secrets { PyScanned(text).vars }

  /** Some assignment raised, and the script ended there. */
  predicate PyRaises(text: string) { PyScanned(text).raised }

  class Shell {
    var environ: map<string, string>

    constructor (environ: map<string, string>)
      ensures this.environ == environ
    {
      this.environ := environ;
    }

    /** One assignment; `vars` is what the file has set so far on top of `base`. */
    method Assign(key: string, value: string, ghost base: map<string, string>, ghost vars: Secrets)
      returns (raised: bool, ghost vars': Secrets)
      requires environ == base + vars
      modifies this
      ensures PyScan(vars', None, raised) == SetVar(vars, key, value) && environ == base + vars'
    {
      raised, vars' := true, vars;
      if key == [] || NUL in key || NUL in value { return; }
      raised, environ, vars' := false, environ[key := value], vars[key := value];
    }

    /** A raw line inside a PEM block. */
    method GlueRaw(raw: string, b: Block, ghost base: map<string, string>, ghost vars: Secrets)
      returns (next: Option<Block>, raised: bool, ghost vars': Secrets)
      requires b.lines != [] && environ == base + vars
      modifies this
      ensures PyScan(vars', next, raised) == PyGlue(vars, b, raw) && environ == base + vars'
    {
      var joined := b.lines + [TrimEnd(Python, raw)];
      if !(END <= Trim(Python, raw)) { return Some(Block(b.key, joined)), false, vars; }
      next := None;
      raised, vars' := Assign(b.key, Join(joined), base, vars);
    }

    /** A raw line outside any PEM block. */
    method ReadRaw(raw: string, ghost base: map<string, string>, ghost vars: Secrets)
      returns (next: Option<Block>, raised: bool, ghost vars': Secrets)
      requires environ == base + vars
      modifies this
      ensures PyScan(vars', next, raised) == PyReadLine(vars, raw) && environ == base + vars'
    {
      next, raised, vars' := None, false, vars;
      var line := Trim(Python, raw);
      var eq := IndexOf(line, '=');
      if line == [] || line[0] == '#' || eq == |line| { return; }
      var key, val := Trim(Python, line[..eq]), Trim(Python, line[eq + 1..]);
      if OpenPem(val) { return Some(Block(key, [val])), false, vars; }
      var plain := UnescapeText(val);
      raised, vars' := Assign(key, plain, base, vars);
    }

    /** The file wins over the shell environment. */
    method LoadSecrets(text: string) returns (raised: bool)
      modifies this
      ensures raised == PyRaises(text) && environ == old(environ) + PyParse(text)
    {
      var lines := PyLines(UniversalNewlines(text));
      var pending: Option<Block> := None;
      ghost var vars: Secrets := map[];
      raised := false;
      var i := 0;
      while i < |lines|
        invariant i <= |lines| && !raised
        invariant pending.Some? ==> pending.value.lines != []
        invariant environ == old(environ) + vars
        invariant PyRun(PyScan(vars, pending, raised), lines[i..]) == PyRun(START, lines)
      {
        PyRunFrom(PyScan(vars, pending, raised), lines, i);
        if pending.Some? {
          pending, raised, vars := GlueRaw(lines[i], pending.value, old(environ), vars);
        } else {
          pending, raised, vars := ReadRaw(lines[i], old(environ), vars);
        }
        i := i + 1;
        if raised {
          PyRunRaised(PyScan(vars, pending, raised), lines[i..]);
          return;
        }
      }
      if pending.Some? { raised, vars := Assign(pending.value.key, Join(pending.value.lines), old(environ), vars); }
    }
  }
}
