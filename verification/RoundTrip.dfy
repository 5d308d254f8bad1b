/** When a secrets file read back gives the map that was written. */
module RoundTrip {
  import opened Escaping
  import opened KeyOrder
  import opened SecretsFile
  import opened Text
  import opened Wrappers

  predicate EnvKeys(m: Secrets) {
    forall k :: k in m ==> IsEnvKey(k)
  }

  // ----- one row -----

  lemma EnvKeyIsPlain(sp: Space, k: string)
    requires IsEnvKey(k)
    ensures Trim(sp, k) == k && k[0] != '#' && k[0] != '-'
    ensures forall i :: 0 <= i < |k| ==> !IsSpace(sp, k[i]) && k[i] != '=' && k[i] != '\n' && k[i] != '\r'
  {
    assert forall i :: 0 <= i < |k| ==> k[i] in k && EnvChar(k[i]);
    TrimIsTrimmed(sp, k);
  }

  lemma RowIsOneLine(k: string, v: string)
    requires IsEnvKey(k)
    ensures '\n' !in Row(k, v) && '\r' !in Row(k, v)
  {
    EnvKeyIsPlain(Rust, k);
    EscapeIsOneLine(v);
  }

  /** A reader that trims the row and each side of the first `=` gets the key and the escaped value. */
  lemma RowSplits(sp: Space, k: string, v: string)
    requires IsEnvKey(k)
    ensures var line := Trim(sp, Row(k, v));
      && IndexOf(line, '=') == |k| < |line| && line[0] != '#' && !(END <= TrimStart(sp, Row(k, v)))
      && Trim(sp, line[..|k|]) == k && Trim(sp, line[|k| + 1..]) == EscapeAll(DropBare(sp, v))
  {
    EnvKeyIsPlain(sp, k);
    var e := EscapeAll(v);
    assert Row(k, v) == (k + "=") + e;
    TrimEndConcat(sp, k + "=", e);
    var line := k + "=" + TrimEnd(sp, e);
    assert Trim(sp, Row(k, v)) == line;
    IndexOfUnique(line, '=', |k|);
    assert line[..|k|] == k && line[|k| + 1..] == TrimEnd(sp, e);
    TrimAfterTrimEnd(sp, e);
    EscapeTrim(sp, v);
  }

  lemma RowStep(found: Secrets, k: string, v: string)
    requires IsEnvKey(k)
    ensures var w := DropBare(Rust, v);
      Step(Scan(found, None), Row(k, v)) ==
        if OpenPem(w) then Scan(found, Some(Pem(k, EscapeAll(w)))) else Scan(found[k := w], None)
  {
    RowSplits(Rust, k, v);
    var w := DropBare(Rust, v);
    assert ReadLine(found, Row(k, v)) == Assign(found, k, EscapeAll(w));
    EscapeOpenPem(w);
    UnescapeEscape(w);
  }

  // ----- all rows -----

  function Rows(ks: seq<string>, m: Secrets): (rows: seq<string>)
    requires forall k :: k in ks ==> k in m
    ensures |rows| == |ks|
  {
    if ks == [] then [] else [Row(ks[0], m[ks[0]])] + Rows(ks[1..], m)
  }

  lemma {:induction false} LinesOfRows(ks: seq<string>, m: Secrets)
    requires forall k :: k in ks ==> k in m && IsEnvKey(k)
    ensures Lines(RenderRows(ks, m)) == Rows(ks, m)
  {
    if ks != [] {
      RowIsOneLine(ks[0], m[ks[0]]);
      LinesCons(Row(ks[0], m[ks[0]]), RenderRows(ks[1..], m));
      LinesOfRows(ks[1..], m);
    }
  }

  lemma CommentStep(found: Secrets, line: string)
    requires Comment(line)
    ensures Step(Scan(found, None), line) == Scan(found, None)
    ensures '\n' !in line && '\r' !in line
  {
    assert line == [line[0]] + line[1..];
    TrimEndConcat(Rust, [line[0]], line[1..]);
    assert LineBreak('\n') && LineBreak('\r');
  }

  lemma LinesUnder(title: string, warning: string, m: Secrets)
    requires Comment(title) && Comment(warning) && EnvKeys(m)
    ensures Lines(RenderUnder(title, warning, m)) == [title] + ([warning] + Rows(SortedKeys(m.Keys), m))
  {
    var rows := RenderRows(SortedKeys(m.Keys), m);
    CommentStep(map[], title);
    CommentStep(map[], warning);
    LinesCons(title, warning + "\n" + rows);
    LinesCons(warning, rows);
    LinesOfRows(SortedKeys(m.Keys), m);
  }

  lemma ParseUnder(title: string, warning: string, m: Secrets)
    requires Comment(title) && Comment(warning) && EnvKeys(m)
    ensures Parse(RenderUnder(title, warning, m)) == Reread(map[], SortedKeys(m.Keys), m)
    ensures |Lines(RenderUnder(title, warning, m))| == 2 + |m|
  {
    LinesUnder(title, warning, m);
    SortedKeysCount(m.Keys);
    var rows := Rows(SortedKeys(m.Keys), m);
    CommentStep(map[], title);
    CommentStep(map[], warning);
    assert Run(FRESH, [title] + ([warning] + rows)) == Run(FRESH, [warning] + rows);
    assert ([title] + ([warning] + rows))[1..] == [warning] + rows;
    assert ([warning] + rows)[1..] == rows;
  }

  ghost function Reread(found: Secrets, ks: seq<string>, m: Secrets): Secrets
    requires forall k :: k in ks ==> k in m
  {
    Finish(Run(Scan(found, None), Rows(ks, m)))
  }

  /** Every entry occupies exactly one line, after the two header lines. */
  lemma {:induction false} ParseRender(m: Secrets)
    requires EnvKeys(m)
    ensures Parse(Render(m)) == Reread(map[], SortedKeys(m.Keys), m)
    ensures |Lines(Render(m))| == 2 + |m|
  {
    TitleIsComment();
    WarningIsComment();
    ParseUnder(TITLE, WARNING, m);
  }

  /** Once a block is open, no row can close it: a row starts with its key. */
  lemma {:induction false} RowsSwallowed(found: Secrets, pem: Pem, ks: seq<string>, m: Secrets)
    requires forall k :: k in ks ==> k in m && IsEnvKey(k)
    ensures var end := Run(Scan(found, Some(pem)), Rows(ks, m));
      end.found == found && end.pending.Some? && end.pending.value.key == pem.key
    decreases ks
  {
    if ks != [] {
      RowSplits(Rust, ks[0], m[ks[0]]);
      var next := Step(Scan(found, Some(pem)), Row(ks[0], m[ks[0]]));
      RowsSwallowed(found, next.pending.value, ks[1..], m);
    }
  }

  predicate Plain(v: string) {
    forall c :: c in v ==> !Escapable(c)
  }

  /** What a value needs in order to survive as one row among others, or as the last row. */
  predicate Survives(v: string, last: bool) {
    EdgeSafe(Rust, v) && (OpenPem(v) ==> last && Plain(v))
  }

  lemma OpenRowAlone(v: string)
    requires OpenPem(DropBare(Rust, v))
    ensures EscapeAll(DropBare(Rust, v)) == v <==> EdgeSafe(Rust, v) && Plain(v)
  {
    var w := DropBare(Rust, v);
    DropBareFixpoint(Rust, v);
    EscapeFixpoint(w);
    if EscapeAll(w) == v {
      EscapeEdges(w);
    }
  }

  lemma {:induction false} EscapeEdges(v: string)
    requires EdgeSafe(Rust, v)
    ensures EdgeSafe(Rust, EscapeAll(v))
  {
    if v != [] {
      assert v == v[..|v| - 1] + [v[|v| - 1]];
      EscapeConcat(v[..|v| - 1], [v[|v| - 1]]);
    }
  }

  /** The map that a list of keys adds to what was found before. */
  ghost function Merged(found: Secrets, ks: seq<string>, m: Secrets): Secrets
    requires forall k :: k in ks ==> k in m
    decreases ks
  {
    if ks == [] then found else Merged(found[ks[0] := m[ks[0]]], ks[1..], m)
  }

  lemma {:induction false} MergedEntries(found: Secrets, ks: seq<string>, m: Secrets)
    requires forall k :: k in ks ==> k in m
    ensures forall k :: k in Merged(found, ks, m) <==> k in found || k in ks
    ensures forall k :: k in found && k !in ks ==> Merged(found, ks, m)[k] == found[k]
    ensures forall k :: k in ks ==> Merged(found, ks, m)[k] == m[k]
    decreases ks
  {
    if ks != [] {
      MergedEntries(found[ks[0] := m[ks[0]]], ks[1..], m);
    }
  }

  lemma MergedAll(m: Secrets)
    ensures Merged(map[], SortedKeys(m.Keys), m) == m
  {
    var all := Merged(map[], SortedKeys(m.Keys), m);
    MergedEntries(map[], SortedKeys(m.Keys), m);
    assert all.Keys == m.Keys;
  }

  ghost predicate AllRows(ks: seq<string>, m: Secrets, ok: (string, bool) -> bool)
    requires forall k :: k in ks ==> k in m
  {
    ks == [] || (ok(m[ks[0]], |ks| == 1) && AllRows(ks[1..], m, ok))
  }

  lemma SameUpdate(m: Secrets, k: string, v: string, w: string)
    ensures m[k := v] == m[k := w] <==> v == w
  {
    assert m[k := v][k] == v && m[k := w][k] == w;
  }

  /** After an unclosed block, everything up to the end of the file belongs to it. */
  lemma OpeningRow(found: Secrets, ks: seq<string>, m: Secrets)
    requires ks != [] && forall k :: k in ks ==> k in m && IsEnvKey(k)
    requires OpenPem(DropBare(Rust, m[ks[0]]))
    ensures var pem := Pem(ks[0], EscapeAll(DropBare(Rust, m[ks[0]])));
      Reread(found, ks, m) == Finish(Run(Scan(found, Some(pem)), Rows(ks[1..], m)))
  {
    RowStep(found, ks[0], m[ks[0]]);
    var row, rest := Row(ks[0], m[ks[0]]), Rows(ks[1..], m);
    assert Rows(ks, m) == [row] + rest && ([row] + rest)[1..] == rest;
  }

  lemma OpeningSurvives(v: string, last: bool)
    requires OpenPem(DropBare(Rust, v))
    ensures Survives(v, last) <==> last && EscapeAll(DropBare(Rust, v)) == v
  {
    OpenRowAlone(v);
    DropBareFixpoint(Rust, v);
  }

  lemma RereadAfterOpening(found: Secrets, ks: seq<string>, m: Secrets)
    requires Distinct(ks) && ks != [] && forall k :: k in ks ==> k in m && IsEnvKey(k) && k !in found
    requires OpenPem(DropBare(Rust, m[ks[0]]))
    ensures forall k :: k in found ==> k in Reread(found, ks, m) && Reread(found, ks, m)[k] == found[k]
    ensures Reread(found, ks, m) == Merged(found, ks, m) <==> AllRows(ks, m, Survives)
  {
    var v, e := m[ks[0]], EscapeAll(DropBare(Rust, m[ks[0]]));
    OpeningRow(found, ks, m);
    OpeningSurvives(v, |ks| == 1);
    if |ks| > 1 {
      RowsSwallowed(found, Pem(ks[0], e), ks[1..], m);
      MergedEntries(found, ks, m);
      assert ks[1] in ks && ks[1] !in Reread(found, ks, m);
    } else {
      assert Reread(found, ks, m) == found[ks[0] := e] && Merged(found, ks, m) == found[ks[0] := v];
      SameUpdate(found, ks[0], e, v);
    }
  }

  lemma {:induction false} RereadExactly(found: Secrets, ks: seq<string>, m: Secrets)
    requires Distinct(ks) && forall k :: k in ks ==> k in m && IsEnvKey(k) && k !in found
    ensures forall k :: k in found ==> k in Reread(found, ks, m) && Reread(found, ks, m)[k] == found[k]
    ensures Reread(found, ks, m) == Merged(found, ks, m) <==> AllRows(ks, m, Survives)
    decreases ks
  {
    if ks != [] {
      var k, v, w := ks[0], m[ks[0]], DropBare(Rust, m[ks[0]]);
      if OpenPem(w) {
        RereadAfterOpening(found, ks, m);
      } else {
        RowStep(found, k, v);
        DropBareFixpoint(Rust, v);
        RereadExactly(found[k := w], ks[1..], m);
        assert Reread(found, ks, m) == Reread(found[k := w], ks[1..], m);
        assert found[k := w][k] == w;
        MergedEntries(found, ks, m);
      }
    }
  }

  // ----- the main results -----

  predicate Greatest(k: string, m: Secrets) {
    forall j :: j in m && j != k ==> Less(j, k)
  }

  /** Each value keeps its ends, and a value that opens a PEM block without closing it is the last row
      and needs no escaping. */
  predicate Faithful(m: Secrets) {
    forall k :: k in m ==> Survives(m[k], Greatest(k, m))
  }

  /** Exactly the maps that come back unchanged. */
  lemma {:induction false} RoundTripExactly(m: Secrets)
    ensures Parse(Render(m)) == m <==> EnvKeys(m) && Faithful(m)
  {
    if EnvKeys(m) {
      ParseRender(m);
      RereadAll(m);
    }
    RunSound(FRESH, Lines(Render(m)));
  }

  lemma {:induction false} RereadAll(m: Secrets)
    requires EnvKeys(m)
    ensures Reread(map[], SortedKeys(m.Keys), m) == m <==> Faithful(m)
  {
    RereadExactly(map[], SortedKeys(m.Keys), m);
    MergedAll(m);
    RowsToMap(m, Survives);
  }

  /** A condition on rows, the last one possibly treated differently, as a condition on the map. */
  lemma {:induction false} RowsToMap(m: Secrets, ok: (string, bool) -> bool)
    ensures AllRows(SortedKeys(m.Keys), m, ok) <==> forall k :: k in m ==> ok(m[k], Greatest(k, m))
  {
    var ks := SortedKeys(m.Keys);
    AllRowsMeans(ks, m, ok);
    forall i | 0 <= i < |ks| ensures ks[i] in m && (Greatest(ks[i], m) <==> i == |ks| - 1) {
      LastIsGreatest(m, i);
      assert ks[i] in ks;
    }
    if AllRows(ks, m, ok) {
      forall k | k in m ensures ok(m[k], Greatest(k, m)) {
        var i :| 0 <= i < |ks| && ks[i] == k;
      }
    }
  }

  lemma {:induction false} AllRowsMeans(ks: seq<string>, m: Secrets, ok: (string, bool) -> bool)
    requires forall k :: k in ks ==> k in m
    ensures AllRows(ks, m, ok) <==> forall i :: 0 <= i < |ks| ==> ok(m[ks[i]], i == |ks| - 1)
  {
    if ks != [] {
      var rest := ks[1..];
      AllRowsMeans(rest, m, ok);
      assert forall i :: 0 <= i < |rest| ==> rest[i] == ks[i + 1];
      assert forall i :: 1 <= i < |ks| ==> ks[i] == rest[i - 1];
      if forall i :: 0 <= i < |ks| ==> ok(m[ks[i]], i == |ks| - 1) {
        forall i | 0 <= i < |rest| ensures ok(m[rest[i]], i == |rest| - 1) {
          assert ok(m[ks[i + 1]], i + 1 == |ks| - 1);
        }
      }
    }
  }

  lemma LastIsGreatest(m: Secrets, i: nat)
    requires i < |SortedKeys(m.Keys)|
    ensures Greatest(SortedKeys(m.Keys)[i], m) <==> i == |SortedKeys(m.Keys)| - 1
  {
    var ks := SortedKeys(m.Keys);
    if i == |ks| - 1 {
      forall j | j in m && j != ks[i] ensures Less(j, ks[i]) {
        assert j in ks;
        var n :| 0 <= n < |ks| && ks[n] == j;
      }
    } else {
      assert ks[i + 1] in m.Keys && Less(ks[i], ks[i + 1]);
      LessAsymmetric(ks[i], ks[i + 1]);
    }
  }

  /** With admissible values only, the order of the keys does not matter. */
  predicate Healthy(m: Secrets) {
    EnvKeys(m) && forall k :: k in m ==> Admissible(m[k])
  }

  lemma {:induction false} HealthyRoundTrip(m: Secrets)
    requires Healthy(m)
    ensures Parse(Render(m)) == m && |Lines(Render(m))| == 2 + |m|
  {
    RoundTripExactly(m);
    ParseRender(m);
  }

  lemma {:induction false} SortedKeysCount(s: set<string>)
    ensures |SortedKeys(s)| == |s|
  {
    if s != {} {
      LeastExists(s);
      var k :| IsLeast(k, s);
      SortedHead(s, k);
      SortedKeysCount(s - {k});
    }
  }

  // ----- rewriting an arbitrary file -----

  /** What every scan of every text satisfies. */
  ghost predicate Sound(scan: Scan) {
    && Healthy(scan.found)
    && (scan.pending.Some? ==>
          var pem := scan.pending.value;
          IsEnvKey(pem.key) && BEGIN <= pem.text && EdgeSafe(Rust, pem.text))
  }

  lemma GlueSound(found: Secrets, pem: Pem, raw: string)
    requires Sound(Scan(found, Some(pem)))
    ensures Sound(Glue(found, pem, raw))
  {
    var tail := TrimEnd(Rust, raw);
    var text := pem.text + "\n" + tail;
    GluedText(pem.text, raw);
    if END <= TrimStart(Rust, raw) {
      ClosingLine(raw);
      ContainsAfter(pem.text + "\n", tail);
    }
  }

  lemma GluedText(head: string, raw: string)
    requires BEGIN <= head && EdgeSafe(Rust, head)
    ensures var text := head + "\n" + TrimEnd(Rust, raw); BEGIN <= text && EdgeSafe(Rust, text)
  {
    TrimEndShape(Rust, raw);
    var tail := TrimEnd(Rust, raw);
    var text := head + "\n" + tail;
    assert text[|text| - 1] == if tail == [] then '\n' else tail[|tail| - 1];
    assert text[..|BEGIN|] == head[..|BEGIN|];
    assert text[0] == head[0];
  }

  lemma ReadLineSound(found: Secrets, raw: string)
    requires Healthy(found)
    ensures Sound(ReadLine(found, raw))
  {
    var line := Trim(Rust, raw);
    var eq := IndexOf(line, '=');
    if eq < |line| {
      var val := Trim(Rust, line[eq + 1..]);
      TrimIsTrimmed(Rust, line[eq + 1..]);
      if !OpenPem(val) { UnescapeAdmissible(val); }
    }
  }

  lemma StepSound(scan: Scan, raw: string)
    requires Sound(scan)
    ensures Sound(Step(scan, raw))
  {
    match scan.pending
    case Some(pem) => GlueSound(scan.found, pem, raw);
    case None => ReadLineSound(scan.found, raw);
  }

  lemma {:induction false} ClosingLine(raw: string)
    requires END <= TrimStart(Rust, raw)
    ensures Contains(TrimEnd(Rust, raw), END)
  {
    if IsSpace(Rust, raw[0]) {
      ClosingLine(raw[1..]);
      assert TrimEnd(Rust, raw)[1..] == TrimEnd(Rust, raw[1..]);
    } else {
      assert raw == END + raw[|END|..];
      TrimEndConcat(Rust, END, raw[|END|..]);
    }
  }

  lemma {:induction false} RunSound(scan: Scan, lines: seq<string>)
    requires Sound(scan)
    ensures Sound(Run(scan, lines))
    decreases lines
  {
    if lines != [] {
      StepSound(scan, lines[0]);
      RunSound(Step(scan, lines[0]), lines[1..]);
    }
  }

  /** Reading any file and writing it back changes nothing the reader can see, unless a PEM block
      is still open at the end of the file; then the unfinished value must either contain a closing
      marker inside a line, or be the last row written and need no escaping. */
  lemma {:induction false} RewriteIsNormalForm(text: string)
    ensures var m, pending := Parse(text), Scanned(text).pending;
      Parse(Render(m)) == m <==>
        (pending.Some? ==>
          || Contains(pending.value.text, END)
          || (Plain(pending.value.text) && Greatest(pending.value.key, m)))
  {
    RunSound(FRESH, Lines(text));
    var m, pending := Parse(text), Scanned(text).pending;
    RoundTripExactly(m);
    if pending.Some? {
      var pem := pending.value;
      assert pem.key in m && m[pem.key] == pem.text;
    }
  }

  /** A file in which every PEM block is closed holds only values that can be written back. */
  lemma {:induction false} ClosedFileIsHealthy(text: string)
    requires Scanned(text).pending.None?
    ensures Healthy(Parse(text)) && Parse(Render(Parse(text))) == Parse(text)
  {
    RunSound(FRESH, Lines(text));
    RewriteIsNormalForm(text);
  }
}
