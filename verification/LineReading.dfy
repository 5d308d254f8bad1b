/** Single lines and raw blocks of a secrets file, spelled out. */
module LineReading {
  import opened AnyFile
  import opened Escaping
  import opened PythonReader
  import opened ReadersAgree
  import opened RoundTrip
  import opened SecretsFile
  import opened Text
  import opened Wrappers
  import opened Writers

  // ----- one assignment -----

  /** A capital letter or an underscore, then capital letters, digits and underscores. */
  predicate IsName(k: string) {
    && k != [] && ('A' <= k[0] <= 'Z' || k[0] == '_')
    && forall i :: 0 <= i < |k| ==> 'A' <= k[i] <= 'Z' || '0' <= k[i] <= '9' || k[i] == '_'
  }

  lemma NameExactly(k: string)
    ensures IsEnvKey(k) <==> IsName(k)
  {
    if IsEnvKey(k) { assert forall i :: 0 <= i < |k| ==> k[i] in k; }
  }

  lemma PairIsTrimmed(k: string, v: string, text: string)
    requires text == k + "=" + v && '=' !in k && Trimmed(Rust, k) && Trimmed(Rust, v)
    ensures Trim(Rust, text) == text && IndexOf(text, '=') == |k| < |text|
    ensures text[..|k|] == k && text[|k| + 1..] == v && Trim(Rust, k) == k && Trim(Rust, v) == v
  {
    PairEdges(k, v, text);
    TrimIsTrimmed(Rust, text);
    TrimIsTrimmed(Rust, k);
    TrimIsTrimmed(Rust, v);
    EqualsAt(k, v, text);
  }

  lemma PairEdges(k: string, v: string, text: string)
    requires text == k + "=" + v && Trimmed(Rust, k) && Trimmed(Rust, v)
    ensures Trimmed(Rust, text)
  {
    assert text[|text| - 1] == if v == [] then '=' else v[|v| - 1];
    assert text[0] == if k == [] then '=' else k[0];
  }

  lemma EqualsAt(k: string, v: string, text: string)
    requires text == k + "=" + v && '=' !in k
    ensures IndexOf(text, '=') == |k| < |text| && text[..|k|] == k && text[|k| + 1..] == v
  {
    assert forall i :: 0 <= i < |k| ==> text[i] == k[i] && k[i] in k;
    IndexOfUnique(text, '=', |k|);
  }

  lemma AloneInFile(text: string)
    requires '\n' !in text && text != []
    ensures Lines(text) == [text] && Parse(text) == Finish(Step(FRESH, text))
  {
    IndexOfUnique(text, '\n', |text|);
    assert [text][1..] == [];
    assert Run(FRESH, [text]) == Run(Step(FRESH, text), []);
  }

  /** A line assigns the value it spells exactly if what stands before its first equals sign is a name. */
  lemma {:induction false} LineAssignsExactly(k: string, v: string, text: string)
    requires text == k + "=" + v && '=' !in k && '\n' !in text && Trimmed(Rust, k) && Trimmed(Rust, v) && !OpenPem(v)
    ensures Parse(text) == if IsName(k) then map[k := Unescape(v)] else map[]
  {
    PairIsTrimmed(k, v, text);
    AloneInFile(text);
    NameExactly(k);
    assert k != [] ==> text[0] == k[0];
  }

  // ----- a block on several raw lines -----

  /** Every line ended by a line feed. */
  function Unlines(ls: seq<string>): string {
    if ls == [] then [] else ls[0] + "\n" + Unlines(ls[1..])
  }

  /** The lines as they are glued to a value: each after a line feed, without white space at its end. */
  function Tails(ls: seq<string>): string {
    if ls == [] then [] else "\n" + TrimEnd(Rust, ls[0]) + Tails(ls[1..])
  }

  predicate NoBreak(l: string) { '\n' !in l && '\r' !in l }

  predicate ClosesBlock(l: string) { END <= TrimStart(Rust, l) }

  lemma {:induction false} LinesOfUnlines(ls: seq<string>)
    requires forall l :: l in ls ==> NoBreak(l)
    ensures Lines(Unlines(ls)) == ls
  {
    if ls != [] {
      assert NoBreak(ls[0]);
      LinesCons(ls[0], Unlines(ls[1..]));
      LinesOfUnlines(ls[1..]);
    }
  }

  lemma {:induction false} BlockRun(found: Secrets, k: string, text: string, ls: seq<string>, last: string)
    requires (forall l :: l in ls ==> !ClosesBlock(l)) && ClosesBlock(last)
    ensures Run(Scan(found, Some(SecretsFile.Pem(k, text))), ls + [last])
      == Scan(found[k := text + Tails(ls + [last])], None)
    decreases ls
  {
    var all, pem := ls + [last], SecretsFile.Pem(k, text);
    if ls == [] {
      assert all[0] == last && all[1..] == [];
      assert Tails(all) == "\n" + TrimEnd(Rust, last) + Tails(all[1..]);
      assert text + Tails(all) == text + "\n" + TrimEnd(Rust, last);
      assert Run(Scan(found, Some(pem)), all) == Run(Step(Scan(found, Some(pem)), last), all[1..]);
    } else {
      assert all[0] == ls[0] && all[1..] == ls[1..] + [last];
      assert ls[0] in ls;
      var next := text + "\n" + TrimEnd(Rust, ls[0]);
      BlockRun(found, k, next, ls[1..], last);
      assert next + Tails(all[1..]) == text + Tails(all);
    }
  }

  /** A private key written before values were escaped, over as many raw lines as it has, is read as one value: its
      lines, joined by line feeds. */
  lemma {:induction false} RawBlockIsOneValue(k: string, v: string, ls: seq<string>, last: string)
    requires IsName(k) && Trimmed(Rust, v) && OpenPem(v) && NoBreak(v)
    requires (forall l :: l in ls ==> NoBreak(l) && !ClosesBlock(l)) && NoBreak(last) && ClosesBlock(last)
    ensures Parse(Unlines([k + "=" + v] + (ls + [last]))) == map[k := v + Tails(ls + [last])]
  {
    var first, rest := k + "=" + v, ls + [last];
    var all := [first] + rest;
    NameExactly(k);
    EnvKeyIsPlain(Rust, k);
    EnvKeyIsFamiliar(k);
    PairIsTrimmed(k, v, first);
    LinesOfUnlines(all);
    assert Step(FRESH, first) == Scan(map[], Some(SecretsFile.Pem(k, v)));
    assert all[0] == first && all[1..] == rest;
    BlockRun(map[], k, v, ls, last);
  }

  // ----- single lines to the script -----

  lemma AloneForScript(text: string)
    requires PlainLine(text) && text != []
    ensures PyScanned(text) == PyFinish(PyStep(START, text))
  {
    OneLineIsItself(text);
    assert [text][1..] == [];
    assert PyRun(START, [text]) == PyRun(PyStep(START, text), []);
  }

  lemma PairIsPlain(k: string, v: string, text: string)
    requires text == k + "=" + v && PlainLine(k) && PlainLine(v)
    ensures PlainLine(text) && NUL !in k && NUL !in v
  {
    forall c | c in text ensures !ExtraBreak(c) && !PyOnly(c) && c != NUL && c != '\n' && c != '\r' {
      if c != '=' { assert c in k || c in v; }
    }
  }

  /** The script assigns to every name, whatever it is made of, but a comment is none, and an empty one ends it with an
      exception. */
  lemma {:induction false} ScriptAssignsExactly(k: string, v: string, text: string)
    requires text == k + "=" + v && '=' !in k && PlainLine(k) && PlainLine(v)
    requires Trimmed(Rust, k) && Trimmed(Rust, v) && !OpenPem(v)
    ensures PyRaises(text) <==> k == ""
    ensures PyParse(text) == if k == "" || k[0] == '#' then map[] else map[k := PyUnescape(v)]
  {
    PairIsTrimmed(k, v, text);
    PairIsPlain(k, v, text);
    AloneForScript(text);
    SameSplit(text);
    PyUnescapeKeepsNulOut(v);
    assert k != [] ==> text[0] == k[0];
  }
}
