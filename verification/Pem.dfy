/** Rebuilding a PEM block whose line structure did not survive a paste. */
module Pem {
  import opened Escaping
  import opened Text
  import opened Wrappers

  const DASHES := "-----"
  const DASHED_LINE := "-----\n"
  const WIDTH := 64

  // ----- UTF-8, as far as cutting text into 64-byte pieces needs it -----

  /** One byte of the encoding of a character. */
  datatype Byte = Byte(of: char, at: nat)

  function CharBytes(c: char): (b: seq<Byte>)
    ensures |b| == Utf8Length(c)
  {
    seq(Utf8Length(c), i requires 0 <= i => Byte(c, i))
  }

  function Bytes(s: string): (b: seq<Byte>)
    ensures |b| >= |s|
  {
    if s == [] then [] else CharBytes(s[0]) + Bytes(s[1..])
  }

  /** Rust's `str::from_utf8`: a piece that starts or ends inside a character is no text. */
  function FromUtf8(b: seq<Byte>): Option<string> {
    if b == [] then Some([])
    else
      var c := b[0].of;
      var n := Utf8Length(c);
      if |b| < n || b[..n] != CharBytes(c) then None
      else
        match FromUtf8(b[n..])
        case None => None
        case Some(rest) => Some([c] + rest)
  }

  function OrEmpty(s: Option<string>): string {
    if s.Some? then s.value else []
  }

  function Cut(b: seq<Byte>): nat {
    if |b| < WIDTH then |b| else WIDTH
  }

  /** The body lines: 64 bytes to a line, each followed by a line feed. */
  function Wrap(b: seq<Byte>): string {
    if b == [] then [] else OrEmpty(FromUtf8(b[..Cut(b)])) + "\n" + Wrap(b[Cut(b)..])
  }

  // ----- normalize_pem -----

  /** Where the outermost block of a trimmed value starts and ends its header and its footer. */
  datatype Marks = Marks(hdrStart: nat, hdrEnd: nat, ftrStart: nat, ftrEnd: nat)

  function Locate(v: string): (r: Option<Marks>)
    ensures r.Some? ==> var m := r.value;
      m.hdrStart <= m.hdrEnd <= |v| && m.ftrStart + 13 <= m.ftrEnd <= |v|
  {
    LocateBy(v, BEGIN, END, DASHES, DASHED_LINE)
  }

  /** The outermost block between two markers. The markers are parameters so that what is proved about the
      search does not depend on their spelling. */
  function LocateBy(v: string, begin: string, end: string, dashes: string, line: string): (r: Option<Marks>)
    requires |line| == |dashes| + 1
    ensures r.Some? ==> var m := r.value;
      m.hdrStart <= m.hdrEnd <= |v| && m.ftrStart + |end| + |dashes| <= m.ftrEnd <= |v|
  {
    match (FindFrom(v, begin, 0), FindLast(v, end))
    case (Some(b), Some(e)) =>
      if e < b then None
      else
        (match (HeaderEndBy(v, b, begin, dashes, line), FindFrom(v, dashes, e + |end|))
         case (Some(h), Some(f)) => Some(Marks(b, h, e, f + |dashes|))
         case _ => None)
    case _ => None
  }

  /** The header ends with the first dashes at the end of a line, or else with the first dashes. */
  function HeaderEndBy(v: string, b: nat, begin: string, dashes: string, line: string): (r: Option<nat>)
    requires At(v, b, begin) && |line| == |dashes| + 1
    ensures r.Some? ==> b + |dashes| <= r.value <= |v|
  {
    match FindFrom(v, line, b)
    case Some(i) => Some(i + |dashes|)
    case None =>
      (match FindFrom(v, dashes, b + |begin|)
       case Some(i) => Some(i + |dashes|)
       case None => None)
  }

  function HeaderEnd(v: string, b: nat): (r: Option<nat>)
    requires At(v, b, BEGIN)
    ensures r.Some? ==> b + 5 <= r.value <= |v| && At(v, r.value - 5, DASHES)
  {
    var r := HeaderEndBy(v, b, BEGIN, DASHES, DASHED_LINE);
    assert FindFrom(v, DASHED_LINE, b).Some? ==>
      var i := FindFrom(v, DASHED_LINE, b).value; v[i..i + 5] == v[i..i + 6][..5];
    r
  }

  function DropSpace(s: string): string {
    if s == [] then [] else (if IsSpace(Rust, s[0]) then [] else [s[0]]) + DropSpace(s[1..])
  }

  datatype Layout = NotPem | Overlap | Block(header: string, body: string, footer: string)

  /** `Overlap` is the slice whose start lies behind its end, on which the program panics. */
  function Dissect(v: string): Layout {
    match Locate(v)
    case None => NotPem
    case Some(m) => TakeApart(v, m)
  }

  function TakeApart(v: string, m: Marks): Layout
    requires m.hdrStart <= m.hdrEnd <= |v| && m.ftrStart <= m.ftrEnd <= |v|
  {
    if m.hdrEnd > m.ftrStart then Overlap
    else
      var body := DropSpace(v[m.hdrEnd..m.ftrStart]);
      if body == [] then NotPem
      else Block(Trim(Rust, v[m.hdrStart..m.hdrEnd]), body, Trim(Rust, v[m.ftrStart..m.ftrEnd]))
  }

  datatype Repair = Repaired(text: string) | Panic

  function Rebuild(header: string, body: string, footer: string): string {
    header + ("\n" + Wrap(Bytes(body))) + footer
  }

  function Normalize(value: string): Repair {
    match Dissect(Trim(Rust, value))
    case NotPem => Repaired(value)
    case Overlap => Panic
    case Block(header, body, footer) => Repaired(Rebuild(header, body, footer))
  }

  method NormalizePem(value: string) returns (r: Repair)
    ensures r == Normalize(value)
  {
    var v := Trim(Rust, value);
    var marks := Locate(v);
    if marks.None? { return Repaired(value); }
    var m := marks.value;
    if m.hdrEnd > m.ftrStart { return Panic; }
    var header, footer := Trim(Rust, v[m.hdrStart..m.hdrEnd]), Trim(Rust, v[m.ftrStart..m.ftrEnd]);
    var body := DropSpace(v[m.hdrEnd..m.ftrStart]);
    if body == [] { return Repaired(value); }
    var lines := WrapLines(Bytes(body));
    r := Repaired(header + ("\n" + lines) + footer);
  }

  method WrapLines(bytes: seq<Byte>) returns (out: string)
    ensures out == Wrap(bytes)
  {
    out := [];
    var i := 0;
    while i < |bytes|
      invariant i <= |bytes|
      invariant out + Wrap(bytes[i..]) == Wrap(bytes)
    {
      var j := if i + WIDTH < |bytes| then i + WIDTH else |bytes|;
      WrapFrom(bytes, i);
      var line := OrEmpty(FromUtf8(bytes[i..j])) + "\n";
      Regroup(out, line, Wrap(bytes[j..]));
      out := out + line;
      i := j;
    }
  }

  lemma WrapFrom(b: seq<Byte>, i: nat)
    requires i < |b|
    ensures var j := if i + WIDTH < |b| then i + WIDTH else |b|;
      Wrap(b[i..]) == OrEmpty(FromUtf8(b[i..j])) + "\n" + Wrap(b[j..])
  {
    var j := if i + WIDTH < |b| then i + WIDTH else |b|;
    assert b[i..][..Cut(b[i..])] == b[i..j];
    assert b[i..][Cut(b[i..])..] == b[j..];
  }

  // ----- locating the parts of a block -----

  /** A header as it is found again once a line feed follows it. The markers are parameters here
      so that the search lemmas do not depend on their spelling. */
  ghost predicate HeaderLike(h: string, i: nat, begin: string, line: string) {
    && |begin| <= |h| && i + |line| == |h| + 1 && At(h, 0, begin) && At(h + "\n", i, line)
    && forall j {:trigger At(h + "\n", j, line)} :: 0 <= j < i ==> !At(h + "\n", j, line)
  }

  ghost predicate FooterLike(f: string, i: nat, end: string, dashes: string) {
    && |end| <= i && i + |dashes| == |f| && At(f, 0, end) && At(f, i, dashes)
    && (forall j {:trigger At(f, j, end)} :: 0 < j ==> !At(f, j, end))
    && (forall j {:trigger At(f, j, dashes)} :: |end| <= j < i ==> !At(f, j, dashes))
  }

  ghost predicate IsHeader(h: string) { |h| >= 10 && HeaderLike(h, |h| - 5, BEGIN, DASHED_LINE) }

  ghost predicate IsFooter(f: string) { |f| >= 13 && FooterLike(f, |f| - 5, END, DASHES) }

  lemma AtInside(a: string, s: string, b: string, j: int, pat: string)
    requires 0 <= j && j + |pat| <= |s|
    ensures At(a + s + b, |a| + j, pat) <==> At(s, j, pat)
  {
    assert (a + s + b)[|a| + j..|a| + j + |pat|] == s[j..j + |pat|];
  }

  ghost predicate FoundAt(r: Option<nat>, i: int) { r.Some? && r.value == i }

  /** The first occurrence inside a part is the first occurrence from that part on. */
  lemma FindInside(a: string, s: string, b: string, pat: string, from: nat, i: nat)
    requires from <= i && At(s, i, pat) && forall j {:trigger At(s, j, pat)} :: from <= j < i ==> !At(s, j, pat)
    ensures FoundAt(FindFrom(a + s + b, pat, |a| + from), |a| + i)
  {
    AtInside(a, s, b, i, pat);
    var r := FindFrom(a + s + b, pat, |a| + from);
    if r.value < |a| + i { AtInside(a, s, b, r.value - |a|, pat); }
  }

  lemma FindLastInside(a: string, s: string, pat: string)
    requires At(s, 0, pat) && forall j {:trigger At(s, j, pat)} :: 0 < j ==> !At(s, j, pat)
    ensures FoundAt(FindLast(a + s, pat), |a|)
  {
    assert a + s + [] == a + s;
    AtInside(a, s, [], 0, pat);
    assert FindLast(a + s, pat).Some?;
    var r := FindLast(a + s, pat);
    if r.value > |a| { AtInside(a, s, [], r.value - |a|, pat); }
  }

  lemma {:induction false} LocateFooter(pre: string, f: string, i: nat, end: string, dashes: string)
    requires FooterLike(f, i, end, dashes)
    ensures FoundAt(FindLast(pre + f, end), |pre|)
    ensures FoundAt(FindFrom(pre + f, dashes, |pre| + |end|), |pre| + i)
  {
    FindLastInside(pre, f, end);
    FindInside(pre, f, [], dashes, |end|, i);
    assert pre + f + [] == pre + f;
  }

  lemma LocateHeader(h: string, i: nat, tail: string, begin: string, line: string)
    requires HeaderLike(h, i, begin, line)
    ensures FoundAt(FindFrom(h + ("\n" + tail), begin, 0), 0)
    ensures FoundAt(FindFrom(h + ("\n" + tail), line, 0), i)
  {
    var s := h + "\n";
    assert [] + s + tail == h + ("\n" + tail);
    assert s[0..|begin|] == h[0..|begin|];
    FindInside([], s, tail, begin, 0, 0);
    FindInside([], s, tail, line, 0, i);
  }

  lemma AtSlice(v: string, lo: nat, hi: nat, j: int, pat: string)
    requires lo <= hi <= |v| && 0 <= j && lo + j + |pat| <= hi
    ensures At(v[lo..hi], j, pat) <==> At(v, lo + j, pat)
  {
    assert v == v[..lo] + v[lo..hi] + v[hi..];
    AtInside(v[..lo], v[lo..hi], v[hi..], j, pat);
  }

  lemma FirstInSlice(v: string, pat: string, lo: nat, from: nat, k: nat, hi: nat)
    requires from <= k && lo + k + |pat| <= hi <= |v| && FoundAt(FindFrom(v, pat, lo + from), lo + k)
    ensures At(v[lo..hi], k, pat)
    ensures forall j {:trigger At(v[lo..hi], j, pat)} :: from <= j < k ==> !At(v[lo..hi], j, pat)
  {
    AtSlice(v, lo, hi, k, pat);
    forall j {:trigger At(v[lo..hi], j, pat)} | from <= j < k ensures !At(v[lo..hi], j, pat) {
      AtSlice(v, lo, hi, j, pat);
    }
  }

  lemma LastInSlice(v: string, pat: string, hi: nat)
    requires FindLast(v, pat).Some? && FindLast(v, pat).value + |pat| <= hi <= |v|
    ensures var f := v[FindLast(v, pat).value..hi];
      At(f, 0, pat) && forall j {:trigger At(f, j, pat)} :: 0 < j ==> !At(f, j, pat)
  {
    var e := FindLast(v, pat).value;
    AtSlice(v, e, hi, 0, pat);
    forall j {:trigger At(v[e..hi], j, pat)} | 0 < j ensures !At(v[e..hi], j, pat) {
      if At(v[e..hi], j, pat) { AtSlice(v, e, hi, j, pat); }
    }
  }

  lemma FirstInPart(v: string, b: nat, k: nat, e: nat, line: string, s: string)
    requires e == b + k + |line| && e <= |v| && s == v[b..e] && FoundAt(FindFrom(v, line, b), b + k)
    ensures At(s, k, line) && forall j {:trigger At(s, j, line)} :: 0 <= j < k ==> !At(s, j, line)
  {
    FirstInSlice(v, line, b, 0, k, e);
  }

  lemma {:induction false} HeaderAtLineEnd(v: string, b: nat, k: nat, e: nat, begin: string, line: string)
    requires At(v, b, begin) && FoundAt(FindFrom(v, line, b), b + k)
    requires e + 1 == b + k + |line| && b + |begin| <= e && v[e] == '\n'
    ensures HeaderLike(v[b..e], k, begin, line)
  {
    AtSlice(v, b, e, 0, begin);
    assert v[b..e + 1][..e - b] == v[b..e] && v[b..e + 1][e - b] == '\n';
    assert v[b..e] + "\n" == v[b..e + 1];
    FirstInPart(v, b, k, e + 1, line, v[b..e] + "\n");
  }

  lemma LineAtEnd(h: string, k: nat, dashes: string)
    requires k + |dashes| == |h| && At(h, k, dashes)
    ensures At(h + "\n", k, dashes + "\n")
  {
    assert (h + "\n")[k..] == h[k..] + "\n";
  }

  lemma {:induction false} HeaderInLine(v: string, b: nat, k: nat, e: nat, begin: string, line: string)
    requires At(v, b, begin) && FindFrom(v, line, b).None? && b + |begin| <= e <= |v|
    requires e + 1 == b + k + |line| && At(v[b..e] + "\n", k, line)
    ensures HeaderLike(v[b..e], k, begin, line)
  {
    var h := v[b..e];
    AtSlice(v, b, e, 0, begin);
    forall j {:trigger At(h + "\n", j, line)} | 0 <= j < k ensures !At(h + "\n", j, line) {
      assert [] + h + "\n" == h + "\n";
      AtInside([], h, "\n", j, line);
      AtSlice(v, b, e, j, line);
    }
  }

  lemma {:induction false} FooterIsFound(v: string, e: nat, k: nat, f: nat, end: string, dashes: string)
    requires FoundAt(FindLast(v, end), e) && |end| <= k && f == e + k + |dashes| && e + |end| <= |v|
    requires FoundAt(FindFrom(v, dashes, e + |end|), e + k)
    ensures FooterLike(v[e..f], k, end, dashes)
  {
    LastInSlice(v, end, f);
    FirstInSlice(v, dashes, e, |end|, k, f);
  }

  lemma LineEndFollowsBegin(v: string, b: nat, i: nat)
    requires At(v, b, BEGIN) && At(v, i, DASHED_LINE) && b <= i
    ensures b + 10 <= i + 5
  {
    var begin, line := v[b..b + 10], v[i..i + 6];
    assert line[5] == '\n' && v[i + 5] == line[5];
    assert forall k :: 0 <= k < 10 ==> begin[k] == v[b + k];
    assert forall k :: 0 <= k < 10 ==> begin[k] != '\n';
  }

  lemma HeaderFoundAtLineEnd(v: string, b: nat, k: nat, e: nat, begin: string, dashes: string, line: string)
    requires At(v, b, begin) && line == dashes + "\n" && FoundAt(FindFrom(v, line, b), b + k)
    requires e == b + k + |dashes| && b + |begin| <= e <= |v|
    ensures HeaderLike(v[b..e], k, begin, line)
  {
    assert v[b + k..][|dashes|] == line[|dashes|];
    HeaderAtLineEnd(v, b, k, e, begin, line);
  }

  lemma HeaderFoundInLine(v: string, b: nat, k: nat, e: nat, begin: string, dashes: string, line: string)
    requires At(v, b, begin) && line == dashes + "\n" && FindFrom(v, line, b).None?
    requires At(v, b + k, dashes) && e == b + k + |dashes| && b + |begin| <= e <= |v|
    ensures HeaderLike(v[b..e], k, begin, line)
  {
    AtSlice(v, b, e, k, dashes);
    LineAtEnd(v[b..e], k, dashes);
    HeaderInLine(v, b, k, e, begin, line);
  }

  /** Where the search for the end of the header stops, in terms of the position of the dashes. */
  lemma HeaderEndsAt(v: string, b: nat, begin: string, dashes: string, line: string) returns (k: nat, e: nat)
    requires At(v, b, begin) && |line| == |dashes| + 1 && |begin| > 0 && HeaderEndBy(v, b, begin, dashes, line).Some?
    requires FindFrom(v, line, b).Some? ==> b + |begin| <= FindFrom(v, line, b).value + |dashes|
    ensures HeaderEndBy(v, b, begin, dashes, line) == Some(e) && e == b + k + |dashes| && b + |begin| <= e <= |v|
    ensures if FindFrom(v, line, b).Some? then FoundAt(FindFrom(v, line, b), b + k) else At(v, b + k, dashes)
  {
    e := HeaderEndBy(v, b, begin, dashes, line).value;
    k := e - |dashes| - b;
  }

  lemma HeaderFoundBy(v: string, b: nat, begin: string, dashes: string, line: string) returns (k: nat, e: nat)
    requires At(v, b, begin) && line == dashes + "\n" && |begin| > 0 && HeaderEndBy(v, b, begin, dashes, line).Some?
    requires FindFrom(v, line, b).Some? ==> b + |begin| <= FindFrom(v, line, b).value + |dashes|
    ensures HeaderEndBy(v, b, begin, dashes, line) == Some(e) && b < e <= |v| && HeaderLike(v[b..e], k, begin, line)
  {
    k, e := HeaderEndsAt(v, b, begin, dashes, line);
    if FindFrom(v, line, b).Some? {
      HeaderFoundAtLineEnd(v, b, k, e, begin, dashes, line);
    } else {
      HeaderFoundInLine(v, b, k, e, begin, dashes, line);
    }
  }

  lemma HeaderLikeIsHeader(h: string, k: nat)
    requires HeaderLike(h, k, BEGIN, DASHED_LINE)
    ensures IsHeader(h)
  {
  }

  lemma HeaderIsFound(v: string, b: nat)
    requires At(v, b, BEGIN) && HeaderEnd(v, b).Some?
    ensures b < HeaderEnd(v, b).value && IsHeader(v[b..HeaderEnd(v, b).value])
  {
    if FindFrom(v, DASHED_LINE, b).Some? { LineEndFollowsBegin(v, b, FindFrom(v, DASHED_LINE, b).value); }
    var k, e := HeaderFoundBy(v, b, BEGIN, DASHES, DASHED_LINE);
    HeaderLikeIsHeader(v[b..e], k);
  }

  lemma Edges(s: string, first: string, last: string)
    requires |first| > 0 && |last| > 0 && At(s, 0, first) && At(s, |s| - |last|, last)
    requires !IsSpace(Rust, first[0]) && !IsSpace(Rust, last[|last| - 1])
    ensures s != [] && s[0] == first[0] && s[|s| - 1] == last[|last| - 1] && Trim(Rust, s) == s
  {
    assert s[0] == s[0..|first|][0];
    assert s[|s| - 1] == s[|s| - |last|..|s|][|last| - 1];
    TrimIsTrimmed(Rust, s);
  }

  lemma HeaderEdges(h: string)
    requires IsHeader(h)
    ensures h != [] && h[0] == '-' && h[|h| - 1] == '-' && Trim(Rust, h) == h && BEGIN <= h
  {
    assert (h + "\n")[|h| - 5..|h| + 1][..5] == h[|h| - 5..|h|];
    assert DASHED_LINE[..5] == DASHES;
    Edges(h, BEGIN, DASHES);
  }

  lemma FooterEdges(f: string)
    requires IsFooter(f)
    ensures f != [] && f[|f| - 1] == '-' && Trim(Rust, f) == f
  {
    Edges(f, END, DASHES);
  }

  lemma {:induction false} MarksAreMarked(v: string)
    requires Locate(v).Some?
    ensures var m := Locate(v).value;
      IsHeader(v[m.hdrStart..m.hdrEnd]) && IsFooter(v[m.ftrStart..m.ftrEnd])
  {
    var m := Locate(v).value;
    HeaderIsFound(v, m.hdrStart);
    FooterIsFound(v, m.ftrStart, m.ftrEnd - 5 - m.ftrStart, m.ftrEnd, END, DASHES);
  }

  lemma BlockIsMarked(v: string)
    requires Dissect(v).Block?
    ensures IsHeader(Dissect(v).header) && IsFooter(Dissect(v).footer)
  {
    MarksAreMarked(v);
    var m := Locate(v).value;
    HeaderEdges(v[m.hdrStart..m.hdrEnd]);
    FooterEdges(v[m.ftrStart..m.ftrEnd]);
  }

  ghost predicate MarksParts(m: Marks, h: string, mid: string, f: string) {
    m.hdrStart == 0 && m.hdrEnd == |h| && m.ftrStart == |h| + |mid| && m.ftrEnd == |h| + |mid| + |f|
  }

  lemma LocateByAt(v: string, begin: string, end: string, dashes: string, line: string, b: nat, h: nat, e: nat, f: nat)
    requires |line| == |dashes| + 1 && b <= e && e + |end| <= |v|
    requires FoundAt(FindFrom(v, begin, 0), b) && FoundAt(HeaderEndBy(v, b, begin, dashes, line), h)
    requires FoundAt(FindLast(v, end), e) && FoundAt(FindFrom(v, dashes, e + |end|), f)
    ensures LocateBy(v, begin, end, dashes, line) == Some(Marks(b, h, e, f + |dashes|))
  {
  }

  lemma LocateAt(v: string, b: nat, h: nat, e: nat, f: nat)
    requires FoundAt(FindFrom(v, BEGIN, 0), b) && FoundAt(HeaderEnd(v, b), h) && b <= e
    requires FoundAt(FindLast(v, END), e) && e + 8 <= |v| && FoundAt(FindFrom(v, DASHES, e + 8), f)
    ensures Locate(v) == Some(Marks(b, h, e, f + 5))
  {
    LocateByAt(v, BEGIN, END, DASHES, DASHED_LINE, b, h, e, f);
  }

  lemma LocateByLine(v: string, begin: string, end: string, dashes: string, line: string, b: nat, i: nat, e: nat,
                     f: nat)
    requires |line| == |dashes| + 1 && b <= e && e + |end| <= |v|
    requires FoundAt(FindFrom(v, begin, 0), b) && FoundAt(FindFrom(v, line, b), i)
    requires FoundAt(FindLast(v, end), e) && FoundAt(FindFrom(v, dashes, e + |end|), f)
    ensures LocateBy(v, begin, end, dashes, line) == Some(Marks(b, i + |dashes|, e, f + |dashes|))
  {
    LocateByAt(v, begin, end, dashes, line, b, i + |dashes|, e, f);
  }

  lemma RebuiltIsSearched(h: string, w: string, f: string, begin: string, end: string, dashes: string, line: string,
                          i: nat, k: nat, pre: string, v: string)
    requires HeaderLike(h, i, begin, line) && FooterLike(f, k, end, dashes)
    requires pre == h + ("\n" + w) && v == pre + f
    ensures FoundAt(FindFrom(v, begin, 0), 0) && FoundAt(FindFrom(v, line, 0), i)
    ensures FoundAt(FindLast(v, end), |pre|) && FoundAt(FindFrom(v, dashes, |pre| + |end|), |pre| + k)
  {
    LocateFooter(pre, f, k, end, dashes);
    assert v == h + ("\n" + (w + f));
    LocateHeader(h, i, w + f, begin, line);
  }

  lemma MarkedLengths(h: string, f: string, i: nat, k: nat, begin: string, end: string, dashes: string, line: string)
    requires |line| == |dashes| + 1 && HeaderLike(h, i, begin, line) && FooterLike(f, k, end, dashes)
    ensures i + |dashes| == |h| && |end| <= k && k + |dashes| == |f|
  {
  }

  lemma LocateByRebuilt(h: string, w: string, f: string, begin: string, end: string, dashes: string, line: string,
                        i: nat, k: nat, pre: string, v: string)
    requires |line| == |dashes| + 1 && HeaderLike(h, i, begin, line) && FooterLike(f, k, end, dashes)
    requires pre == h + ("\n" + w) && v == pre + f
    ensures LocateBy(v, begin, end, dashes, line) == Some(Marks(0, |h|, |pre|, |v|))
  {
    MarkedLengths(h, f, i, k, begin, end, dashes, line);
    RebuiltIsSearched(h, w, f, begin, end, dashes, line, i, k, pre, v);
    LocateByLine(v, begin, end, dashes, line, 0, i, |pre|, |pre| + k);
  }

  lemma LocateRebuilt(h: string, w: string, f: string)
    requires IsHeader(h) && IsFooter(f)
    ensures var v := h + ("\n" + w) + f;
      Locate(v).Some? && MarksParts(Locate(v).value, h, "\n" + w, f)
  {
    var pre := h + ("\n" + w);
    LocateByRebuilt(h, w, f, BEGIN, END, DASHES, DASHED_LINE, |h| - 5, |f| - 5, pre, pre + f);
  }

  lemma Slices(h: string, mid: string, f: string)
    ensures var v, i, j := h + mid + f, |h|, |h| + |mid|;
      v[0..i] == h && v[i..j] == mid && v[j..|v|] == f
  {
  }

  lemma TakePartsApart(h: string, mid: string, f: string, m: Marks)
    requires MarksParts(m, h, mid, f) && Trim(Rust, h) == h && Trim(Rust, f) == f
    ensures TakeApart(h + mid + f, m) == if DropSpace(mid) == [] then NotPem else Block(h, DropSpace(mid), f)
  {
    Slices(h, mid, f);
    var v := h + mid + f;
    assert m.ftrEnd == |v|;
    assert v[m.hdrStart..m.hdrEnd] == h;
    assert v[m.hdrEnd..m.ftrStart] == mid;
    assert v[m.ftrStart..m.ftrEnd] == f;
  }

  /** A rebuilt block is taken apart into the same header and footer again. */
  lemma {:induction false} DissectRebuilt(h: string, w: string, f: string)
    requires IsHeader(h) && IsFooter(f)
    ensures var v := h + ("\n" + w) + f;
      Dissect(v) == if DropSpace(w) == [] then NotPem else Block(h, DropSpace(w), f)
  {
    LocateRebuilt(h, w, f);
    HeaderEdges(h);
    FooterEdges(f);
    TakePartsApart(h, "\n" + w, f, Locate(h + ("\n" + w) + f).value);
    assert ("\n" + w)[1..] == w;
  }

  lemma RebuiltIsTrimmed(h: string, w: string, f: string)
    requires IsHeader(h) && IsFooter(f)
    ensures var v := h + ("\n" + w) + f;
      Trim(Rust, v) == v && Contains(v, END)
  {
    var v := h + ("\n" + w) + f;
    HeaderEdges(h);
    FooterEdges(f);
    TrimIsTrimmed(Rust, v);
    LocateFooter(h + ("\n" + w), f, |f| - 5, END, DASHES);
    ContainsWhere(v, END);
  }
}
