/** When the engine and the script read the same secrets from a file the engine wrote. */
module ReadersAgree {
  import opened Escaping
  import opened KeyOrder
  import opened PythonReader
  import opened RoundTrip
  import opened SecretsFile
  import opened Startup
  import opened Text
  import opened Wrappers
  import opened Writers

  /** White space for Python only. */
  predicate PyOnly(c: char) { 0x1C <= c as int <= 0x1F }

  /** The ends of a value that Python's wider notion of white space would eat. */
  predicate PyEdges(v: string) {
    v == [] || (!PyOnly(v[0]) && !PyOnly(v[|v| - 1]))
  }

  predicate NoExtraBreak(v: string) {
    forall i :: 0 <= i < |v| ==> !ExtraBreak(v[i])
  }

  /** The values on which both readers agree: no extra line separator inside, none of U+001C to U+001F at an end,
      and nothing that cannot be put into an environment. */
  predicate PyClean(v: string) { PyShaped(v) && NUL !in v }

  predicate PyShaped(v: string) { NoExtraBreak(v) && PyEdges(v) }

  // ----- reading back what was rendered -----

  lemma {:induction false} UniversalIdentity(s: string)
    requires '\r' !in s
    ensures UniversalNewlines(s) == s
  {
    if s != [] { UniversalIdentity(s[1..]); }
  }

  lemma PyLinesCons(line: string, rest: string)
    requires forall i :: 0 <= i < |line| ==> !PyBreak(line[i])
    ensures PyLines(line + "\n" + rest) == [line] + PyLines(rest)
  {
    var s := line + "\n" + rest;
    assert forall j :: 0 <= j < |line| ==> s[j] == line[j];
    assert s[|line|] == '\n';
    assert FirstBreak(s) == |line|;
    assert s[..|line|] == line && s[|line| + 1..] == rest;
  }

  lemma {:induction false} PyUnescapeEscape(v: string)
    ensures PyUnescape(EscapeAll(v)) == v
  {
    if v != [] {
      PyUnescapeEscape(v[1..]);
      var e := EscapeAll(v);
      if Escapable(v[0]) {
        assert e[2..] == EscapeAll(v[1..]);
      } else {
        assert e[1..] == EscapeAll(v[1..]);
      }
    }
  }

  lemma {:induction false} EscapeKeepsBreaksOut(v: string)
    requires NoExtraBreak(v)
    ensures forall i :: 0 <= i < |EscapeAll(v)| ==> !PyBreak(EscapeAll(v)[i])
  {
    if v != [] {
      EscapeKeepsBreaksOut(v[1..]);
      assert forall i :: 0 <= i < |EscapeChar(v[0])| ==> !PyBreak(EscapeChar(v[0])[i]);
    }
  }

  lemma RowHasNoBreak(k: string, v: string)
    requires IsEnvKey(k) && NoExtraBreak(v)
    ensures forall i :: 0 <= i < |Row(k, v)| ==> !PyBreak(Row(k, v)[i])
  {
    EscapeKeepsBreaksOut(v);
    assert forall i :: 0 <= i < |k| ==> k[i] in k && EnvChar(k[i]);
  }

  lemma PyRowStep(vars: Secrets, k: string, v: string)
    requires IsEnvKey(k) && EdgeSafe(Python, v) && !OpenPem(v) && NUL !in v
    ensures PyStep(PyScan(vars, None, false), Row(k, v)) == PyScan(vars[k := v], None, false)
  {
    RowSplits(Python, k, v);
    DropBareFixpoint(Python, v);
    EscapeOpenPem(v);
    PyUnescapeEscape(v);
    assert forall c :: c in k ==> EnvChar(c);
  }

  predicate CleanRows(ks: seq<string>, m: Secrets) {
    forall k :: k in ks ==> k in m && IsEnvKey(k) && Admissible(m[k]) && PyClean(m[k])
  }

  lemma {:induction false} PyReadsRows(vars: Secrets, ks: seq<string>, m: Secrets)
    requires CleanRows(ks, m)
    ensures PyRun(PyScan(vars, None, false), PyLines(RenderRows(ks, m))) == PyScan(Merged(vars, ks, m), None, false)
    decreases ks
  {
    if ks != [] {
      var k, rest := ks[0], RenderRows(ks[1..], m);
      RowHasNoBreak(k, m[k]);
      PyLinesCons(Row(k, m[k]), rest);
      PyRowStep(vars, k, m[k]);
      PyReadsRows(vars[k := m[k]], ks[1..], m);
      assert ([Row(k, m[k])] + PyLines(rest))[1..] == PyLines(rest);
    }
  }

  lemma PyCommentStep(vars: Secrets, line: string)
    requires Comment(line)
    ensures PyStep(PyScan(vars, None, false), line) == PyScan(vars, None, false)
    ensures forall i :: 0 <= i < |line| ==> !PyBreak(line[i])
  {
    assert line == [line[0]] + line[1..];
    TrimEndConcat(Python, [line[0]], line[1..]);
    assert forall i :: 0 <= i < |line| ==> line[i] in line && !LineBreak(line[i]);
  }

  lemma {:induction false} RowsHaveNoCr(ks: seq<string>, m: Secrets)
    requires forall k :: k in ks ==> k in m && IsEnvKey(k)
    ensures '\r' !in RenderRows(ks, m)
  {
    if ks != [] {
      RowIsOneLine(ks[0], m[ks[0]]);
      RowsHaveNoCr(ks[1..], m);
    }
  }

  lemma PySkipComment(line: string, rest: string)
    requires Comment(line)
    ensures PyRun(START, PyLines(line + "\n" + rest)) == PyRun(START, PyLines(rest))
  {
    PyCommentStep(map[], line);
    PyLinesCons(line, rest);
    assert ([line] + PyLines(rest))[1..] == PyLines(rest);
  }

  lemma PyRunUnder(title: string, warning: string, rows: string)
    requires Comment(title) && Comment(warning)
    ensures PyRun(START, PyLines(title + "\n" + (warning + "\n" + rows)))
         == PyRun(START, PyLines(rows))
  {
    PySkipComment(title, warning + "\n" + rows);
    PySkipComment(warning, rows);
  }

  lemma PyReadsAllRows(m: Secrets)
    requires Healthy(m) && forall k :: k in m ==> PyClean(m[k])
    ensures PyRun(START, PyLines(RenderRows(SortedKeys(m.Keys), m))) == PyScan(m, None, false)
  {
    var ks := SortedKeys(m.Keys);
    PyReadsRows(map[], ks, m);
    MergedAll(m);
  }

  lemma PyParseUnder(title: string, warning: string, m: Secrets)
    requires Comment(title) && Comment(warning) && Healthy(m) && forall k :: k in m ==> PyClean(m[k])
    ensures PyScanned(RenderUnder(title, warning, m)) == PyScan(m, None, false)
  {
    NoCrUnder(title, warning, m);
    UniversalIdentity(RenderUnder(title, warning, m));
    PyRunUnder(title, warning, RenderRows(SortedKeys(m.Keys), m));
    PyReadsAllRows(m);
  }

  lemma NoCrUnder(title: string, warning: string, m: Secrets)
    requires Comment(title) && Comment(warning) && EnvKeys(m)
    ensures '\r' !in RenderUnder(title, warning, m)
  {
    PyCommentStep(map[], title);
    PyCommentStep(map[], warning);
    RowsHaveNoCr(SortedKeys(m.Keys), m);
  }

  // ----- what the script can assign at all -----

  lemma {:induction false} PyLinesHaveNoBreak(s: string)
    ensures forall l :: l in PyLines(s) ==> forall i :: 0 <= i < |l| ==> !PyBreak(l[i])
  {
    if s != [] && FirstBreak(s) < |s| { PyLinesHaveNoBreak(s[FirstBreak(s) + 1..]); }
  }

  lemma {:induction false} PyUnescapeBreaks(v: string)
    requires NoExtraBreak(v)
    ensures NoExtraBreak(PyUnescape(v))
  {
    if v != [] {
      if v[0] != '\\' {
        PyUnescapeBreaks(v[1..]);
      } else if |v| > 1 {
        PyUnescapeBreaks(v[2..]);
        assert NoExtraBreak(PyPair(v[1]));
      }
    }
  }

  lemma LastOfConcat(a: string, b: string)
    requires b != []
    ensures (a + b)[|a + b| - 1] == b[|b| - 1]
  {
  }

  lemma {:induction false} PyUnescapeLast(v: string)
    requires v != [] && !PyOnly(v[|v| - 1])
    ensures var u := PyUnescape(v); u != [] && !PyOnly(u[|u| - 1])
  {
    if v[0] != '\\' {
      if |v| > 1 {
        PyUnescapeLast(v[1..]);
        LastOfConcat([v[0]], PyUnescape(v[1..]));
      }
    } else if |v| > 2 {
      PyUnescapeLast(v[2..]);
      LastOfConcat(PyPair(v[1]), PyUnescape(v[2..]));
    } else if |v| == 2 {
      assert PyUnescape(v) == PyPair(v[1]) + PyUnescape(v[2..]) == PyPair(v[1]);
    }
  }

  lemma PyUnescapeFirst(v: string)
    requires v != [] && !PyOnly(v[0])
    ensures var u := PyUnescape(v); u != [] ==> !PyOnly(u[0])
  {
  }

  lemma TrimClean(sp: Space, s: string)
    requires NoExtraBreak(s)
    ensures NoExtraBreak(TrimEnd(sp, s)) && NoExtraBreak(Trim(sp, s))
  {
    TrimStartShape(sp, s);
    TrimEndShape(sp, s);
    TrimEndShape(sp, TrimStart(sp, s));
  }

  ghost predicate PySound(scan: PyScan) {
    && (forall k :: k in scan.vars ==> PyClean(scan.vars[k]))
    && match scan.pending
       case None => true
       case Some(b) => b.lines != [] && PyShaped(Join(b.lines)) && BEGIN <= Join(b.lines)
  }

  lemma PyGlueSound(vars: Secrets, b: Block, raw: string)
    requires PySound(PyScan(vars, Some(b), false)) && NoExtraBreak(raw)
    ensures PySound(PyGlue(vars, b, raw))
  {
    var tail, head := TrimEnd(Python, raw), Join(b.lines);
    var lines := b.lines + [tail];
    TrimClean(Python, raw);
    TrimEndShape(Python, raw);
    assert lines[..|lines| - 1] == b.lines;
    var text := Join(lines);
    assert text == head + "\n" + tail;
    assert text[|text| - 1] == if tail == [] then '\n' else tail[|tail| - 1];
    assert text[0] == head[0] && text[..|BEGIN|] == head[..|BEGIN|];
  }

  lemma PyValueClean(val: string)
    requires NoExtraBreak(val) && Trimmed(Python, val)
    ensures PyShaped(val) && PyShaped(PyUnescape(val))
  {
    PyUnescapeBreaks(val);
    if val != [] {
      PyUnescapeFirst(val);
      PyUnescapeLast(val);
    }
  }

  lemma PyReadLineSound(vars: Secrets, raw: string)
    requires PySound(PyScan(vars, None, false)) && NoExtraBreak(raw)
    ensures PySound(PyReadLine(vars, raw))
  {
    var line := Trim(Python, raw);
    TrimClean(Python, raw);
    var eq := IndexOf(line, '=');
    if eq < |line| {
      var rest := line[eq + 1..];
      TrimClean(Python, rest);
      TrimIsTrimmed(Python, rest);
      PyValueClean(Trim(Python, rest));
      assert Join([Trim(Python, rest)]) == Trim(Python, rest);
    }
  }

  lemma {:induction false} PyRunSound(scan: PyScan, lines: seq<string>)
    requires PySound(scan) && forall l :: l in lines ==> NoExtraBreak(l)
    ensures PySound(PyRun(scan, lines))
    decreases lines
  {
    if lines != [] {
      match scan.pending {
        case Some(b) => PyGlueSound(scan.vars, b, lines[0]);
        case None => PyReadLineSound(scan.vars, lines[0]);
      }
      PyRunSound(PyStep(scan, lines[0]), lines[1..]);
    }
  }

  /** No text whatever makes the script assign a value with an extra separator in it or at its ends. */
  lemma PyAssignsClean(text: string)
    ensures forall k :: k in PyParse(text) ==> PyClean(PyParse(text)[k])
  {
    var lines := PyLines(UniversalNewlines(text));
    PyLinesHaveNoBreak(UniversalNewlines(text));
    PyRunSound(START, lines);
  }

  // ----- the main result -----

  /** On a file the engine wrote, the script sets exactly what the engine sets if and only if every value is
      free of the extra line separators and of Python-only white space at its ends. */
  lemma {:induction false} ReadersAgreeExactly(m: Secrets)
    requires Healthy(m)
    ensures Parse(Render(m)) == m
    ensures PyParse(Render(m)) == m <==> forall k :: k in m ==> PyClean(m[k])
    ensures PyParse(Render(m)) == m ==> !PyRaises(Render(m))
  {
    HealthyRoundTrip(m);
    PyAssignsClean(Render(m));
    if forall k :: k in m ==> PyClean(m[k]) {
      TitleIsComment();
      WarningIsComment();
      PyParseUnder(TITLE, WARNING, m);
    }
  }

  /** Started from the same environment, both then end up with the same one. */
  lemma SameEnvironment(m: Secrets, env: map<string, string>)
    requires Healthy(m) && forall k :: k in m ==> PyClean(m[k])
    ensures !PyRaises(Render(m)) && AllSettable(m)
    ensures RestartAttempt(Parse(Render(m)), env).env == env + PyParse(Render(m)) == env + m
  {
    ReadersAgreeExactly(m);
    forall k | k in m ensures Settable(k, m[k]) { OrdinaryIsSettable(k, m[k]); }
    LoadedAll(m);
  }
}
