/** When the engine and the script read the same secrets from a file that nobody rendered: one edited by hand, or
    written before values were escaped. */
module AnyFile {
  import opened Escaping
  import opened PythonReader
  import opened ReadersAgree
  import opened RoundTrip
  import opened SecretsFile
  import opened Startup
  import opened Text
  import opened Wrappers
  import opened Writers

  /** Characters that the two readers take for the same thing, and that an environment can hold. */
  predicate Familiar(s: string) {
    forall c :: c in s ==> !ExtraBreak(c) && !PyOnly(c) && c != NUL
  }

  /** Every carriage return belongs to a line break. */
  predicate CrBeforeLf(s: string) {
    forall i :: 0 <= i < |s| && s[i] == '\r' ==> i + 1 < |s| && s[i + 1] == '\n'
  }

  // ----- the same lines -----

  lemma {:induction false} UniversalLine(line: string, rest: string)
    requires '\n' !in line && forall i :: 0 <= i < |line| - 1 ==> line[i] != '\r'
    ensures UniversalNewlines(line + "\n" + rest) == StripCr(line) + "\n" + UniversalNewlines(rest)
  {
    var s := line + "\n" + rest;
    if line == [] {
      assert s[1..] == rest;
    } else if line[0] == '\r' {
      assert s[1] == '\n' && s[2..] == rest;
    } else {
      assert s[1..] == line[1..] + "\n" + rest;
      UniversalLine(line[1..], rest);
      assert StripCr(line) == [line[0]] + StripCr(line[1..]);
    }
  }

  predicate PlainLine(l: string) {
    Familiar(l) && '\n' !in l && '\r' !in l
  }

  lemma CutLine(s: string, i: nat)
    requires Familiar(s) && CrBeforeLf(s) && i < |s| && s[i] == '\n' && '\n' !in s[..i]
    ensures PlainLine(StripCr(s[..i])) && (forall j :: 0 <= j < i - 1 ==> s[..i][j] != '\r')
    ensures Familiar(s[i + 1..]) && CrBeforeLf(s[i + 1..])
    ensures s == s[..i] + "\n" + s[i + 1..]
  {
    PartFamiliar(s, 0, i);
    PartFamiliar(s, i + 1, |s|);
    assert s[0..i] == s[..i] && s[i + 1..|s|] == s[i + 1..];
    var line, rest := s[..i], s[i + 1..];
    forall j | 0 <= j < i - 1 ensures line[j] != '\r' {
      assert s[j + 1] == line[j + 1] && line[j + 1] in line;
    }
    assert forall c :: c in StripCr(line) ==> c in line;
    forall j | 0 <= j < |rest| && rest[j] == '\r' ensures j + 1 < |rest| && rest[j + 1] == '\n' {
      assert s[i + 1 + j] == '\r';
    }
  }

  lemma PartFamiliar(s: string, i: nat, j: nat)
    requires Familiar(s) && i <= j <= |s|
    ensures Familiar(s[i..j])
  {
    assert forall c :: c in s[i..j] ==> c in s;
  }

  lemma NoLineFeedNoCr(s: string)
    requires CrBeforeLf(s) && '\n' !in s
    ensures '\r' !in s
  {
    assert forall i :: 0 <= i < |s| ==> s[i] in s;
    forall i | 0 <= i < |s| ensures s[i] != '\r' {
      if i + 1 < |s| { assert s[i + 1] in s; }
    }
  }

  /** Both readers split such a text into the same lines. */
  lemma {:induction false} SameLines(s: string)
    requires Familiar(s) && CrBeforeLf(s)
    ensures PyLines(UniversalNewlines(s)) == Lines(s) && forall l :: l in Lines(s) ==> PlainLine(l)
    decreases |s|
  {
    var i := IndexOf(s, '\n');
    if i == |s| {
      assert '\n' !in s;
      NoLineFeedNoCr(s);
      UniversalIdentity(s);
      assert forall j :: 0 <= j < |s| ==> s[j] in s && !PyBreak(s[j]);
      assert FirstBreak(s) == |s|;
    } else {
      CutLine(s, i);
      var line, rest := StripCr(s[..i]), s[i + 1..];
      UniversalLine(s[..i], rest);
      assert forall j :: 0 <= j < |line| ==> line[j] in line && !PyBreak(line[j]);
      PyLinesCons(line, UniversalNewlines(rest));
      SameLines(rest);
    }
  }

  // ----- the same white space -----

  lemma TailFamiliar(s: string)
    requires Familiar(s) && s != []
    ensures !PyOnly(s[0]) && Familiar(s[1..])
  {
    assert s[0] in s && s[1..|s|] == s[1..];
    PartFamiliar(s, 1, |s|);
  }

  lemma {:induction false} SameTrimStart(s: string)
    requires Familiar(s)
    ensures TrimStart(Python, s) == TrimStart(Rust, s)
  {
    if s != [] {
      TailFamiliar(s);
      SameTrimStart(s[1..]);
    }
  }

  lemma {:induction false} SameTrimEnd(s: string)
    requires Familiar(s)
    ensures TrimEnd(Python, s) == TrimEnd(Rust, s)
  {
    if s != [] {
      TailFamiliar(s);
      SameTrimEnd(s[1..]);
    }
  }

  lemma SameTrim(s: string)
    requires Familiar(s)
    ensures Trim(Python, s) == Trim(Rust, s) && TrimEnd(Python, s) == TrimEnd(Rust, s)
    ensures Familiar(Trim(Rust, s)) && Familiar(TrimEnd(Rust, s)) && Familiar(TrimStart(Rust, s))
  {
    TrimStartShape(Rust, s);
    TrimEndShape(Rust, s);
    TrimEndShape(Rust, TrimStart(Rust, s));
    SameTrimStart(s);
    SameTrimEnd(s);
    SameTrimEnd(TrimStart(Rust, s));
  }

  /** The two tests for the end of a block. */
  lemma SameClosing(raw: string, pat: string)
    requires Familiar(raw) && pat != [] && !IsSpace(Rust, pat[|pat| - 1])
    ensures pat <= Trim(Python, raw) <==> pat <= TrimStart(Rust, raw)
  {
    SameTrim(raw);
    var t := TrimStart(Rust, raw);
    TrimEndShape(Rust, t);
    if pat <= t {
      assert t == pat + t[|pat|..];
      TrimEndConcat(Rust, pat, t[|pat|..]);
    }
  }

  // ----- the same escapes, but for one -----

  /** A backslash that is not itself escaped stands before a `t`. */
  predicate HasTab(v: string) {
    v != [] && if v[0] != '\\' then HasTab(v[1..]) else |v| > 1 && (v[1] == 't' || HasTab(v[2..]))
  }

  lemma SameAfter(a: string, u: string, w: string)
    ensures a + u == a + w <==> u == w
  {
    if a + u == a + w { assert u == (a + u)[|a|..] && w == (a + w)[|a|..]; }
  }

  /** The script knows the escape `\t`, the engine does not, and that is the only difference. */
  lemma {:induction false} UnescapesAgreeExactly(v: string)
    ensures PyUnescape(v) == Unescape(v) <==> !HasTab(v)
  {
    if v != [] {
      if v[0] != '\\' {
        UnescapesAgreeExactly(v[1..]);
        SameAfter([v[0]], PyUnescape(v[1..]), Unescape(v[1..]));
      } else if |v| > 1 {
        UnescapesAgreeExactly(v[2..]);
        SameAfter(PyPair(v[1]), PyUnescape(v[2..]), Unescape(v[2..]));
        if v[1] == 't' { assert PyUnescape(v)[0] == '\t' && Unescape(v)[0] == '\\'; }
      }
    }
  }

  lemma {:induction false} PyUnescapeKeepsNulOut(v: string)
    requires NUL !in v
    ensures NUL !in PyUnescape(v)
  {
    if v != [] {
      assert forall c :: c in v[1..] ==> c in v;
      if v[0] != '\\' {
        PyUnescapeKeepsNulOut(v[1..]);
      } else if |v| > 1 {
        assert v[1] in v && forall c :: c in v[2..] ==> c in v;
        PyUnescapeKeepsNulOut(v[2..]);
      }
    }
  }

  // ----- one line -----

  datatype Parts = Skip | Pair(key: string, val: string)

  /** What a line outside a block says. */
  function Split(raw: string): Parts {
    var line := Trim(Rust, raw);
    var eq := IndexOf(line, '=');
    if line == [] || line[0] == '#' || eq == |line| then Skip
    else Pair(Trim(Rust, line[..eq]), Trim(Rust, line[eq + 1..]))
  }

  /** The line assigns nothing, or assigns to an environment name. */
  predicate EnvLine(raw: string) { Split(raw).Pair? ==> IsEnvKey(Split(raw).key) }

  /** No line outside a block assigns to anything but an environment name. */
  predicate EnvLines(scan: Scan, lines: seq<string>)
    decreases lines
  {
    lines == [] || ((scan.pending.None? ==> EnvLine(lines[0])) && EnvLines(Step(scan, lines[0]), lines[1..]))
  }

  /** The variables whose last assignment so far was a line with a tab escape. */
  function TabStep(scan: Scan, tabbed: set<string>, raw: string): set<string> {
    if scan.pending.Some? then
      if Step(scan, raw).pending.None? then tabbed - {scan.pending.value.key} else tabbed
    else
      match Split(raw)
      case Skip => tabbed
      case Pair(key, val) =>
        if OpenPem(val) then tabbed else if HasTab(val) then tabbed + {key} else tabbed - {key}
  }

  function TabRun(scan: Scan, tabbed: set<string>, lines: seq<string>): set<string>
    decreases lines
  {
    if lines == [] then
      match scan.pending
      case Some(pem) => tabbed - {pem.key}
      case None => tabbed
    else TabRun(Step(scan, lines[0]), TabStep(scan, tabbed, lines[0]), lines[1..])
  }

  /** The variables whose last assignment in the text is a line with a tab escape. */
  function Tabbed(text: string): set<string> { TabRun(FRESH, {}, Lines(text)) }

  // ----- both scans together -----

  /** Both readers are inside the same block, or outside any, and differ on exactly the variables in `tabbed`. */
  ghost predicate Together(a: Scan, b: PyScan, tabbed: set<string>) {
    && !b.raised && SameBlock(a.pending, b.pending) && DifferOn(a.found, b.vars, tabbed)
  }

  ghost predicate DifferOn(m: Secrets, n: Secrets, tabbed: set<string>) {
    && m.Keys == n.Keys && tabbed <= m.Keys
    && forall k :: k in m ==> (m[k] == n[k] <==> k !in tabbed)
  }

  ghost predicate SameBlock(pem: Option<SecretsFile.Pem>, block: Option<Block>) {
    match pem
    case None => block.None?
    case Some(p) =>
      && block.Some? && block.value.lines != [] && block.value.key == p.key && Join(block.value.lines) == p.text
      && IsEnvKey(p.key) && NUL !in p.text
  }

  lemma EnvKeyIsAssignable(k: string)
    requires IsEnvKey(k)
    ensures k != [] && NUL !in k
  {
    assert forall c :: c in k ==> EnvChar(c);
  }

  lemma JoinSnoc(lines: seq<string>, l: string)
    requires lines != []
    ensures Join(lines + [l]) == Join(lines) + "\n" + l
  {
    assert (lines + [l])[..|lines|] == lines;
  }

  lemma EndIsNoSpace()
    ensures END != [] && !IsSpace(Rust, END[|END| - 1])
  {
  }

  lemma TogetherInBlock(a: Scan, b: PyScan, tabbed: set<string>, raw: string)
    requires Together(a, b, tabbed) && a.pending.Some? && PlainLine(raw)
    ensures Together(Step(a, raw), PyStep(b, raw), TabStep(a, tabbed, raw))
  {
    var pem, block := a.pending.value, b.pending.value;
    SameTrim(raw);
    EndIsNoSpace();
    SameClosing(raw, END);
    JoinSnoc(block.lines, TrimEnd(Rust, raw));
    EnvKeyIsAssignable(pem.key);
    assert NUL !in pem.text + "\n" + TrimEnd(Rust, raw);
  }

  lemma SameSplit(raw: string)
    requires PlainLine(raw)
    ensures var line := Trim(Rust, raw);
      var eq := IndexOf(line, '=');
      && Trim(Python, raw) == line && Familiar(line)
      && Trim(Python, line[..eq]) == Trim(Rust, line[..eq])
      && (eq < |line| ==> Trim(Python, line[eq + 1..]) == Trim(Rust, line[eq + 1..]))
      && (eq < |line| ==> NUL !in Trim(Rust, line[eq + 1..]))
  {
    var line := Trim(Rust, raw);
    var eq := IndexOf(line, '=');
    SameTrim(raw);
    PartFamiliar(line, 0, eq);
    assert line[0..eq] == line[..eq];
    SameTrim(line[..eq]);
    if eq < |line| {
      PartFamiliar(line, eq + 1, |line|);
      assert line[eq + 1..|line|] == line[eq + 1..];
      SameTrim(line[eq + 1..]);
    }
  }

  lemma DifferOnPair(m: Secrets, n: Secrets, tabbed: set<string>, k: string, v: string)
    requires DifferOn(m, n, tabbed)
    ensures DifferOn(m[k := Unescape(v)], n[k := PyUnescape(v)], if HasTab(v) then tabbed + {k} else tabbed - {k})
  {
    UnescapesAgreeExactly(v);
  }

  lemma TogetherOutside(a: Scan, b: PyScan, tabbed: set<string>, raw: string)
    requires Together(a, b, tabbed) && a.pending.None? && PlainLine(raw) && EnvLine(raw)
    ensures Together(Step(a, raw), PyStep(b, raw), TabStep(a, tabbed, raw))
  {
    SameSplit(raw);
    match Split(raw)
    case Skip =>
    case Pair(key, val) =>
      EnvKeyIsAssignable(key);
      PyUnescapeKeepsNulOut(val);
      DifferOnPair(a.found, b.vars, tabbed, key, val);
  }

  lemma {:induction false} TogetherRun(a: Scan, b: PyScan, tabbed: set<string>, lines: seq<string>)
    requires Together(a, b, tabbed) && EnvLines(a, lines) && forall l :: l in lines ==> PlainLine(l)
    ensures var py := PyFinish(PyRun(b, lines));
      !py.raised && py.pending.None? && DifferOn(Finish(Run(a, lines)), py.vars, TabRun(a, tabbed, lines))
    decreases lines
  {
    if lines != [] {
      if a.pending.Some? {
        TogetherInBlock(a, b, tabbed, lines[0]);
      } else {
        TogetherOutside(a, b, tabbed, lines[0]);
      }
      TogetherRun(Step(a, lines[0]), PyStep(b, lines[0]), TabStep(a, tabbed, lines[0]), lines[1..]);
    } else if a.pending.Some? {
      EnvKeyIsAssignable(a.pending.value.key);
    }
  }

  // ----- the main result -----

  /** On every text of familiar characters whose assignments are to environment names, raw PEM blocks included, the
      script assigns without an error what the engine reads, except to the variables that were last assigned by a
      line with a tab escape, and those it always gets wrong. */
  lemma {:induction false} FilesReadAlike(text: string)
    requires Familiar(text) && CrBeforeLf(text) && EnvLines(FRESH, Lines(text))
    ensures !PyRaises(text) && DifferOn(Parse(text), PyParse(text), Tabbed(text))
  {
    SameLines(text);
    TogetherRun(FRESH, START, {}, Lines(text));
  }

  lemma NoDifference(m: Secrets, n: Secrets, tabbed: set<string>)
    requires DifferOn(m, n, tabbed)
    ensures m == n <==> tabbed == {}
  {
    assert forall k :: k in tabbed ==> k in m && m[k] != n[k];
    assert m.Keys == n.Keys;
    if m == n { assert tabbed == {}; }
  }

  /** So both end up with the same environment exactly when there is no such variable. */
  lemma {:induction false} FilesReadAlikeExactly(text: string, env: map<string, string>)
    requires Familiar(text) && CrBeforeLf(text) && EnvLines(FRESH, Lines(text))
    ensures PyParse(text) == Parse(text) <==> Tabbed(text) == {}
    ensures RestartAttempt(Parse(text), env).reply == Done
    ensures RestartAttempt(Parse(text), env).env == env + Parse(text)
  {
    FilesReadAlike(text);
    NoDifference(Parse(text), PyParse(text), Tabbed(text));
    ParseIsSettable(text);
    LoadedAll(Parse(text));
  }

  // ----- the escape that only the script knows -----

  /** A file of one line. */
  lemma OneAssignment(k: string, v: string, text: string)
    requires IsEnvKey(k) && text == k + "=" + v && Trimmed(Rust, v) && PlainLine(v) && !OpenPem(v)
    ensures Parse(text) == map[k := Unescape(v)] && PyParse(text) == map[k := PyUnescape(v)]
  {
    EnvKeyIsFamiliar(k);
    assert PlainLine(text);
    PairSplits(k, v, text);
    OneLineIsItself(text);
    OneLineRun(k, v, text);
  }

  lemma OneLineIsItself(text: string)
    requires PlainLine(text) && text != []
    ensures Lines(text) == [text] && PyLines(UniversalNewlines(text)) == [text]
  {
    IndexOfUnique(text, '\n', |text|);
    SameLines(text);
  }

  lemma EnvKeyIsFamiliar(k: string)
    requires IsEnvKey(k)
    ensures PlainLine(k) && '=' !in k && NUL !in k
  {
    assert forall c :: c in k ==> EnvChar(c);
  }

  lemma PairSplits(k: string, v: string, text: string)
    requires IsEnvKey(k) && text == k + "=" + v && Trimmed(Rust, v)
    ensures Trim(Rust, text) == text && IndexOf(text, '=') == |k| && text[..|k|] == k && text[|k| + 1..] == v
    ensures Split(text) == Pair(k, v)
  {
    EnvKeyIsPlain(Rust, k);
    assert text[|text| - 1] == if v == [] then '=' else v[|v| - 1];
    TrimIsTrimmed(Rust, text);
    TrimIsTrimmed(Rust, v);
    IndexOfUnique(text, '=', |k|);
  }

  lemma OneLineRun(k: string, v: string, text: string)
    requires PlainLine(text) && IsEnvKey(k) && Split(text) == Pair(k, v) && !OpenPem(v) && NUL !in v
    requires Lines(text) == [text] && PyLines(UniversalNewlines(text)) == [text]
    ensures Parse(text) == map[k := Unescape(v)] && PyParse(text) == map[k := PyUnescape(v)]
  {
    SameSplit(text);
    EnvKeyIsFamiliar(k);
    PyUnescapeKeepsNulOut(v);
    assert [text][1..] == [];
    assert Run(FRESH, [text]) == Run(Step(FRESH, text), []);
    assert PyRun(START, [text]) == PyRun(PyStep(START, text), []);
  }

  lemma TabPair(x: char, y: char)
    requires x != '\\' && y != '\\'
    ensures Unescape([x, '\\', 't', y]) == [x, '\\', 't', y] && PyUnescape([x, '\\', 't', y]) == [x, '\t', y]
  {
    var v, rest := [x, '\\', 't', y], ['\\', 't', y];
    assert v[1..] == rest && rest[2..] == [y] && [y][1..] == [];
    assert Unescape([y]) == [y] && PyUnescape([y]) == [y];
    assert Unescape(rest) == ['\\', 't'] + [y] && PyUnescape(rest) == ['\t'] + [y];
  }

  /** A backslash and a `t`, written before values were escaped: the engine reads the two characters, the script a
      tab, though both values are ones on which the readers agree once the engine has written them. */
  lemma TabFileDiffers(k: string, text: string, v: string, w: string)
    requires IsEnvKey(k) && text == k + "=" + v && v == "a\\tb" && w == "a\tb"
    ensures Parse(text) == map[k := v] && PyParse(text) == map[k := w]
    ensures PyClean(v) && PyClean(w)
  {
    assert v == ['a', '\\', 't', 'b'] && w == ['a', '\t', 'b'];
    TabPair('a', 'b');
    assert BEGIN[0] == '-';
    OneAssignment(k, v, text);
  }
}
