/** The escaping that keeps every stored value on one line, and its inverse. */
module Escaping {
  import opened Text

  const BEGIN := "-----BEGIN"
  const END := "-----END"

  // ----- escape_secret -----

  /** Rust's `str::replace` with a one-character pattern. */
  function ReplaceChar(v: string, c: char, with: string): string {
    if v == [] then []
    else (if v[0] == c then with else [v[0]]) + ReplaceChar(v[1..], c, with)
  }

  /** Three passes over the whole value, one for each character that must not appear raw. */
  function Escape(v: string): string {
    ReplaceChar(ReplaceChar(ReplaceChar(v, '\\', "\\\\"), '\n', "\\n"), '\r', "\\r")
  }

  predicate Escapable(c: char) { c == '\\' || c == '\n' || c == '\r' }

  function EscapeChar(c: char): string {
    if c == '\\' then "\\\\" else if c == '\n' then "\\n" else if c == '\r' then "\\r" else [c]
  }

  /** What one character at a time would give. */
  function EscapeAll(v: string): string {
    if v == [] then [] else EscapeChar(v[0]) + EscapeAll(v[1..])
  }

  lemma {:induction false} ReplaceConcat(a: string, b: string, c: char, with: string)
    ensures ReplaceChar(a + b, c, with) == ReplaceChar(a, c, with) + ReplaceChar(b, c, with)
  {
    if a == [] {
      assert a + b == b;
    } else {
      assert (a + b)[1..] == a[1..] + b;
      ReplaceConcat(a[1..], b, c, with);
    }
  }

  /** The three passes amount to one character map: no pass rewrites what an earlier one produced. */
  lemma {:induction false} EscapeIsCharMap(v: string)
    ensures Escape(v) == EscapeAll(v)
  {
    if v != [] {
      var c := v[0];
      var first := if c == '\\' then "\\\\" else [c];
      var p := ReplaceChar(v[1..], '\\', "\\\\");
      ReplaceConcat(first, p, '\n', "\\n");
      OnePass(first, '\n', "\\n");
      var second := ReplaceChar(first, '\n', "\\n");
      assert second == if c == '\n' then "\\n" else first;
      ReplaceConcat(second, ReplaceChar(p, '\n', "\\n"), '\r', "\\r");
      OnePass(second, '\r', "\\r");
      assert ReplaceChar(second, '\r', "\\r") == EscapeChar(c);
      EscapeIsCharMap(v[1..]);
    }
  }

  lemma OnePass(s: string, c: char, with: string)
    requires 1 <= |s| <= 2
    ensures ReplaceChar(s, c, with) == (if s[0] == c then with else [s[0]])
      + (if |s| == 1 then "" else if s[1] == c then with else [s[1]])
  {
    assert |s| == 2 ==> s[1..][1..] == [];
  }

  lemma {:induction false} EscapeConcat(a: string, b: string)
    ensures EscapeAll(a + b) == EscapeAll(a) + EscapeAll(b)
  {
    if a == [] {
      assert a + b == b;
    } else {
      assert (a + b)[1..] == a[1..] + b;
      EscapeConcat(a[1..], b);
    }
  }

  /** An escaped value has no line break in it, so it occupies one line of the file. */
  lemma {:induction false} EscapeIsOneLine(v: string)
    ensures '\n' !in EscapeAll(v) && '\r' !in EscapeAll(v)
  {
    if v != [] {
      EscapeIsOneLine(v[1..]);
    }
  }

  /** Escaping is the identity exactly on the values that need none. */
  lemma {:induction false} EscapeFixpoint(v: string)
    ensures |EscapeAll(v)| >= |v|
    ensures EscapeAll(v) == v <==> forall c :: c in v ==> !Escapable(c)
  {
    if v != [] {
      EscapeFixpoint(v[1..]);
      assert v == [v[0]] + v[1..];
      assert v[0] in v && forall c :: c in v <==> c == v[0] || c in v[1..];
      if !Escapable(v[0]) {
        assert EscapeAll(v)[1..] == EscapeAll(v[1..]);
      }
    }
  }

  // ----- unescape_secret -----

  /** The value an escaped text stands for. A backslash pair that is not an escape stays as it is. */
  function Unescape(v: string): string {
    if v == [] then []
    else if v[0] != '\\' then [v[0]] + Unescape(v[1..])
    else if |v| == 1 then v
    else UnescapePair(v[1]) + Unescape(v[2..])
  }

  function UnescapePair(c: char): string {
    if c == 'n' then "\n" else if c == 'r' then "\r" else if c == '\\' then "\\" else ['\\', c]
  }

  lemma {:induction false} UnescapePlain(v: string)
    requires '\\' !in v
    ensures Unescape(v) == v
  {
    if v != [] {
      UnescapePlain(v[1..]);
    }
  }

  method UnescapeSecret(v: string) returns (out: string)
    ensures out == Unescape(v)
  {
    if '\\' !in v {
      UnescapePlain(v);
      return v;
    }
    out := [];
    var i := 0;
    while i < |v|
      invariant i <= |v|
      invariant out + Unescape(v[i..]) == Unescape(v)
    {
      ghost var from := v[i..];
      var c := v[i];
      i := i + 1;
      var piece := [c];
      if c == '\\' && i < |v| {
        piece := UnescapePair(v[i]);
        i := i + 1;
        assert from[2..] == v[i..];
      }
      assert Unescape(from) == piece + Unescape(v[i..]);
      out := out + piece;
    }
  }

  /** Unescaping undoes escaping, whatever the value. */
  lemma {:induction false} UnescapeEscape(v: string)
    ensures Unescape(EscapeAll(v)) == v
  {
    if v != [] {
      UnescapeEscape(v[1..]);
      var e := EscapeAll(v);
      if Escapable(v[0]) {
        assert e[2..] == EscapeAll(v[1..]);
      } else {
        assert e[1..] == EscapeAll(v[1..]);
      }
    }
  }

  // ----- escaping and trimming -----

  /** White space that stands for itself in the file; line breaks do not, because they are escaped. */
  predicate BareSpace(sp: Space, c: char) {
    IsSpace(sp, c) && !Escapable(c)
  }

  function DropBareStart(sp: Space, v: string): string {
    if v == [] || !BareSpace(sp, v[0]) then v else DropBareStart(sp, v[1..])
  }

  function DropBareEnd(sp: Space, v: string): string {
    if v == [] then []
    else
      var rest := DropBareEnd(sp, v[1..]);
      if rest == [] && BareSpace(sp, v[0]) then [] else [v[0]] + rest
  }

  /** What survives of a value when its escaped form is trimmed. */
  function DropBare(sp: Space, v: string): string {
    DropBareEnd(sp, DropBareStart(sp, v))
  }

  /** Neither end is white space that the reader would trim away. */
  predicate EdgeSafe(sp: Space, v: string) {
    v == [] || (!BareSpace(sp, v[0]) && !BareSpace(sp, v[|v| - 1]))
  }

  lemma {:induction false} EscapeTrimStart(sp: Space, v: string)
    ensures TrimStart(sp, EscapeAll(v)) == EscapeAll(DropBareStart(sp, v))
  {
    if v != [] && BareSpace(sp, v[0]) {
      assert EscapeAll(v)[1..] == EscapeAll(v[1..]);
      EscapeTrimStart(sp, v[1..]);
    }
  }

  lemma {:induction false} EscapeTrimEnd(sp: Space, v: string)
    ensures TrimEnd(sp, EscapeAll(v)) == EscapeAll(DropBareEnd(sp, v))
  {
    if v != [] {
      EscapeTrimEnd(sp, v[1..]);
      if BareSpace(sp, v[0]) {
        assert EscapeAll(v)[1..] == EscapeAll(v[1..]);
        var rest := DropBareEnd(sp, v[1..]);
        assert rest != [] ==> ([v[0]] + rest)[1..] == rest && EscapeAll(rest) != [];
      } else {
        TrimEndConcat(sp, EscapeChar(v[0]), EscapeAll(v[1..]));
        assert ([v[0]] + DropBareEnd(sp, v[1..]))[1..] == DropBareEnd(sp, v[1..]);
      }
    }
  }

  /** Trimming an escaped value is escaping the value without its bare white space. */
  lemma EscapeTrim(sp: Space, v: string)
    ensures Trim(sp, EscapeAll(v)) == EscapeAll(DropBare(sp, v))
  {
    EscapeTrimStart(sp, v);
    EscapeTrimEnd(sp, DropBareStart(sp, v));
  }

  lemma {:induction false} DropBareEndKeeps(sp: Space, v: string)
    ensures DropBareEnd(sp, v) <= v
    ensures DropBareEnd(sp, v) == v <==> v == [] || !BareSpace(sp, v[|v| - 1])
    ensures DropBareEnd(sp, v) == [] || !BareSpace(sp, DropBareEnd(sp, v)[|DropBareEnd(sp, v)| - 1])
  {
    if v != [] {
      DropBareEndKeeps(sp, v[1..]);
    }
  }

  lemma {:induction false} DropBareStartKeeps(sp: Space, v: string)
    ensures var t := DropBareStart(sp, v);
      |t| <= |v| && t == v[|v| - |t|..] && (t == [] || !BareSpace(sp, t[0]))
  {
    if v != [] && BareSpace(sp, v[0]) {
      DropBareStartKeeps(sp, v[1..]);
    }
  }

  /** Nothing is lost exactly when both ends are safe. */
  lemma DropBareFixpoint(sp: Space, v: string)
    ensures DropBare(sp, v) == v <==> EdgeSafe(sp, v)
    ensures EdgeSafe(sp, DropBare(sp, v))
  {
    DropBareStartKeeps(sp, v);
    DropBareEndKeeps(sp, DropBareStart(sp, v));
  }

  // ----- escaping and the PEM markers -----

  lemma {:induction false} EscapePrefix(v: string, pat: string)
    requires forall c :: c in pat ==> !Escapable(c)
    ensures pat <= EscapeAll(v) <==> pat <= v
  {
    if v != [] && pat != [] {
      EscapePrefix(v[1..], pat[1..]);
      PrefixCons(pat, v);
      PrefixCons(pat, EscapeAll(v));
      assert pat[0] in pat;
      assert !Escapable(v[0]) ==> EscapeAll(v)[1..] == EscapeAll(v[1..]);
    }
  }

  lemma {:induction false} EscapeContains(v: string)
    ensures Contains(EscapeAll(v), END) <==> Contains(v, END)
  {
    EscapePrefix(v, END);
    if v != [] {
      EscapeContains(v[1..]);
      var e := EscapeAll(v);
      if Escapable(v[0]) {
        assert e[1..][1..] == EscapeAll(v[1..]);
        assert e[1..][0] != END[0];
      } else {
        assert e[1..] == EscapeAll(v[1..]);
      }
    }
  }

  /** A value that opens a PEM block and does not close it. */
  predicate OpenPem(v: string) {
    BEGIN <= v && !Contains(v, END)
  }

  lemma EscapeOpenPem(v: string)
    ensures OpenPem(EscapeAll(v)) <==> OpenPem(v)
  {
    EscapePrefix(v, BEGIN);
    EscapeContains(v);
  }

  /** The values the file can hold faithfully. */
  predicate Admissible(v: string) {
    EdgeSafe(Rust, v) && !OpenPem(v)
  }

  // ----- unescaping what a reader finds -----

  lemma {:induction false} UnescapePrefix(s: string, pat: string)
    requires forall c :: c in pat ==> !Escapable(c)
    ensures pat <= s <==> pat <= Unescape(s)
  {
    if s != [] && pat != [] {
      PrefixCons(pat, s);
      PrefixCons(pat, Unescape(s));
      assert pat[0] in pat;
      if s[0] != '\\' {
        UnescapePrefix(s[1..], pat[1..]);
        assert Unescape(s)[1..] == Unescape(s[1..]);
      }
    }
  }

  lemma {:induction false} UnescapeKeepsEnd(s: string)
    requires Contains(s, END)
    ensures Contains(Unescape(s), END)
  {
    UnescapePrefix(s, END);
    if !(END <= s) {
      if s[0] != '\\' {
        UnescapeKeepsEnd(s[1..]);
        assert Unescape(s)[1..] == Unescape(s[1..]);
      } else {
        assert |s| > 1;
        var u, tail := Unescape(s), Unescape(s[2..]);
        if END <= s[1..] {
          UnescapePrefix(s[2..], END[1..]);
          assert s[1..][1..] == s[2..];
          assert u[1..] == [s[1]] + tail;
          assert END <= u[1..];
        } else {
          assert s[1..][1..] == s[2..];
          UnescapeKeepsEnd(s[2..]);
          ContainsAfter(UnescapePair(s[1]), tail);
        }
      }
    }
  }

  lemma {:induction false} ContainsAfter(a: string, s: string)
    requires Contains(s, END)
    ensures Contains(a + s, END)
  {
    if a == [] {
      assert a + s == s;
    } else {
      assert (a + s)[1..] == a[1..] + s;
      ContainsAfter(a[1..], s);
    }
  }

  lemma {:induction false} UnescapeLast(s: string)
    requires s != [] && !IsSpace(Rust, s[|s| - 1])
    ensures Unescape(s) != [] && !BareSpace(Rust, Unescape(s)[|Unescape(s)| - 1])
  {
    if s[0] != '\\' {
      if |s| > 1 { UnescapeLast(s[1..]); }
    } else if |s| > 2 {
      UnescapeLast(s[2..]);
    }
  }

  /** Whatever a trimmed, closed line value unescapes to can be written back faithfully. */
  lemma UnescapeAdmissible(s: string)
    requires Trimmed(Rust, s) && !OpenPem(s)
    ensures Admissible(Unescape(s))
  {
    if s != [] {
      UnescapeLast(s);
      UnescapePrefix(s, BEGIN);
      if BEGIN <= s { UnescapeKeepsEnd(s); }
    }
  }
}
