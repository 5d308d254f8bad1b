/** The string operations the secrets code relies on: white space trimming,
    splitting into lines and searching for a marker. */
module Text {
  import opened Wrappers

  /** Which standard library decides what counts as white space. */
  datatype Space = Rust | Python

  /** Rust's `char::is_whitespace` is the Unicode White_Space property; Python's `str.isspace`
      adds the four information separators U+001C to U+001F. */
  predicate IsSpace(sp: Space, c: char) {
    var n := c as int;
    || 9 <= n <= 13 || n == 0x20 || n == 0x85 || n == 0xA0 || n == 0x1680
    || 0x2000 <= n <= 0x200A || n == 0x2028 || n == 0x2029 || n == 0x202F
    || n == 0x205F || n == 0x3000
    || (sp == Python && 0x1C <= n <= 0x1F)
  }

  /** The number of bytes of a character in UTF-8. */
  function Utf8Length(c: char): (n: nat)
    ensures 1 <= n <= 4
  {
    var code := c as int;
    if code < 0x80 then 1 else if code < 0x800 then 2 else if code < 0x10000 then 3 else 4
  }

  /** Rust's `str::len`. */
  function ByteLength(s: string): nat {
    if s == [] then 0 else Utf8Length(s[0]) + ByteLength(s[1..])
  }

  lemma Regroup(a: string, b: string, c: string)
    ensures a + (b + c) == (a + b) + c
  {
  }

  // ----- trimming -----

  function TrimStart(sp: Space, s: string): string {
    if s == [] || !IsSpace(sp, s[0]) then s else TrimStart(sp, s[1..])
  }

  function TrimEnd(sp: Space, s: string): string {
    if s == [] then []
    else
      var rest := TrimEnd(sp, s[1..]);
      if rest == [] && IsSpace(sp, s[0]) then [] else [s[0]] + rest
  }

  function Trim(sp: Space, s: string): string {
    TrimEnd(sp, TrimStart(sp, s))
  }

  /** Neither end is white space. */
  predicate Trimmed(sp: Space, s: string) {
    s == [] || (!IsSpace(sp, s[0]) && !IsSpace(sp, s[|s| - 1]))
  }

  lemma {:induction false} TrimStartShape(sp: Space, s: string)
    ensures var t := TrimStart(sp, s);
      |t| <= |s| && t == s[|s| - |t|..] && (t == [] || !IsSpace(sp, t[0]))
      && forall i :: 0 <= i < |s| - |t| ==> IsSpace(sp, s[i])
  {
    if s != [] && IsSpace(sp, s[0]) {
      TrimStartShape(sp, s[1..]);
      var k := |s| - 1 - |TrimStart(sp, s[1..])|;
      assert s[1..][k..] == s[k + 1..];
      assert forall i :: 1 <= i < k + 1 ==> s[i] == s[1..][i - 1];
    }
  }

  lemma {:induction false} TrimEndShape(sp: Space, s: string)
    ensures var t := TrimEnd(sp, s);
      t <= s && (t == [] || !IsSpace(sp, t[|t| - 1]))
      && forall i :: |t| <= i < |s| ==> IsSpace(sp, s[i])
  {
    if s != [] {
      TrimEndShape(sp, s[1..]);
    }
  }

  lemma {:induction false} TrimEndTrimmed(sp: Space, s: string)
    requires s == [] || !IsSpace(sp, s[|s| - 1])
    ensures TrimEnd(sp, s) == s
  {
    TrimEndShape(sp, s);
    var t := TrimEnd(sp, s);
    assert |t| < |s| ==> IsSpace(sp, s[|s| - 1]);
  }

  /** Trimming yields a trimmed string, and changes nothing exactly when there is nothing to trim. */
  lemma TrimIsTrimmed(sp: Space, s: string)
    ensures Trimmed(sp, Trim(sp, s)) && |Trim(sp, s)| <= |s|
    ensures Trim(sp, s) == s <==> Trimmed(sp, s)
  {
    TrimStartShape(sp, s);
    TrimEndShape(sp, TrimStart(sp, s));
    if Trimmed(sp, s) {
      TrimEndTrimmed(sp, s);
    }
  }

  /** A last character that is not white space protects everything before it. */
  lemma {:induction false} TrimEndConcat(sp: Space, a: string, s: string)
    requires a != [] && !IsSpace(sp, a[|a| - 1])
    ensures TrimEnd(sp, a + s) == a + TrimEnd(sp, s)
  {
    assert (a + s)[1..] == a[1..] + s;
    if |a| == 1 {
      assert a[1..] + s == s;
    } else {
      TrimEndConcat(sp, a[1..], s);
      assert [a[0]] + (a[1..] + TrimEnd(sp, s)) == a + TrimEnd(sp, s);
    }
  }

  lemma {:induction false} TrimAfterTrimEnd(sp: Space, s: string)
    ensures Trim(sp, TrimEnd(sp, s)) == Trim(sp, s)
  {
    if s != [] {
      var rest := TrimEnd(sp, s[1..]);
      if !IsSpace(sp, s[0]) {
        TrimEndShape(sp, s);
        TrimEndTrimmed(sp, TrimEnd(sp, s));
      } else {
        TrimAfterTrimEnd(sp, s[1..]);
        if rest != [] {
          assert ([s[0]] + rest)[1..] == rest;
        }
      }
    }
  }

  // ----- lines -----

  function IndexOf(s: string, c: char): (i: nat)
    ensures i <= |s| && (i < |s| ==> s[i] == c) && forall j :: 0 <= j < i ==> s[j] != c
  {
    if s == [] || s[0] == c then 0 else 1 + IndexOf(s[1..], c)
  }

  lemma IndexOfUnique(s: string, c: char, i: nat)
    requires i <= |s| && (i < |s| ==> s[i] == c) && forall j :: 0 <= j < i ==> s[j] != c
    ensures IndexOf(s, c) == i
  {
  }

  function StripCr(s: string): string {
    if s != [] && s[|s| - 1] == '\r' then s[..|s| - 1] else s
  }

  /** Rust's `str::lines`: split after each line feed, drop it and one carriage return before it;
      a final line without a line feed keeps its carriage return. */
  function Lines(s: string): seq<string> {
    if s == [] then []
    else
      var i := IndexOf(s, '\n');
      if i == |s| then [s] else [StripCr(s[..i])] + Lines(s[i + 1..])
  }

  lemma LinesCons(line: string, rest: string)
    requires '\n' !in line && '\r' !in line
    ensures Lines(line + "\n" + rest) == [line] + Lines(rest)
  {
    var s := line + "\n" + rest;
    assert s[..|line|] == line;
    assert forall j :: 0 <= j < |line| ==> s[j] == line[j];
    IndexOfUnique(s, '\n', |line|);
    assert s[|line| + 1..] == rest;
  }

  // ----- searching -----

  lemma PrefixCons(pat: string, s: string)
    requires pat != [] && s != []
    ensures pat <= s <==> pat[0] == s[0] && pat[1..] <= s[1..]
  {
    if pat[0] == s[0] && pat[1..] <= s[1..] {
      assert s == [s[0]] + s[1..];
      assert pat == [pat[0]] + pat[1..];
    }
  }

  function Contains(s: string, pat: string): bool {
    pat <= s || (s != [] && Contains(s[1..], pat))
  }

  ghost predicate At(s: string, i: int, pat: string) {
    0 <= i <= |s| && pat <= s[i..]
  }

  lemma AtTail(s: string, i: int, pat: string)
    requires s != [] && 0 <= i
    ensures At(s[1..], i, pat) <==> At(s, i + 1, pat)
  {
    if i < |s| { assert s[1..][i..] == s[i + 1..]; }
  }

  lemma {:induction false} ContainsWhere(s: string, pat: string)
    ensures Contains(s, pat) <==> exists i :: At(s, i, pat)
  {
    if pat <= s {
      assert At(s, 0, pat);
    } else if s != [] {
      ContainsWhere(s[1..], pat);
      if i :| At(s[1..], i, pat) { AtTail(s, i, pat); }
      if i :| At(s, i, pat) {
        assert i != 0;
        AtTail(s, i - 1, pat);
      }
    }
  }

  /** Rust's `str::find`, starting at an offset: the first occurrence. */
  function FindFrom(s: string, pat: string, from: nat): (r: Option<nat>)
    requires from <= |s|
    ensures r.Some? ==> from <= r.value && At(s, r.value, pat)
    ensures r.Some? ==> forall j {:trigger At(s, j, pat)} :: from <= j < r.value ==> !At(s, j, pat)
    ensures r.None? ==> forall j {:trigger At(s, j, pat)} :: from <= j ==> !At(s, j, pat)
    decreases |s| - from
  {
    if |s| < from + |pat| then None
    else if s[from..from + |pat|] == pat then Some(from)
    else if from == |s| then None
    else FindFrom(s, pat, from + 1)
  }

  /** Rust's `str::rfind` among the occurrences that start before `limit`: the last one. */
  function FindLastBefore(s: string, pat: string, limit: nat): (r: Option<nat>)
    ensures r.Some? ==> r.value < limit && At(s, r.value, pat)
    ensures r.Some? ==> forall j {:trigger At(s, j, pat)} :: r.value < j < limit ==> !At(s, j, pat)
    ensures r.None? ==> forall j {:trigger At(s, j, pat)} :: j < limit ==> !At(s, j, pat)
  {
    if limit == 0 then None
    else if limit - 1 + |pat| <= |s| && s[limit - 1..limit - 1 + |pat|] == pat then Some(limit - 1)
    else FindLastBefore(s, pat, limit - 1)
  }

  function FindLast(s: string, pat: string): (r: Option<nat>)
    ensures r.Some? ==> At(s, r.value, pat) && forall j {:trigger At(s, j, pat)} :: r.value < j ==> !At(s, j, pat)
    ensures r.None? ==> forall j {:trigger At(s, j, pat)} :: !At(s, j, pat)
  {
    FindLastBefore(s, pat, |s| + 1)
  }
}
