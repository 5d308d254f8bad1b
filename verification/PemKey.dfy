/** Whatever a paste did to the white space inside a PEM block, the repaired block carries the same key. */
module PemKey {
  import opened Escaping
  import opened Pem
  import opened PemRepair
  import opened Text

  predicate NoDash(s: string) {
    forall i :: 0 <= i < |s| ==> s[i] != '-'
  }

  predicate AllSpace(s: string) {
    forall i :: 0 <= i < |s| ==> IsSpace(Rust, s[i])
  }

  function Header(name: string): string { BEGIN + (name + DASHES) }

  function Footer(name: string): string { END + (name + DASHES) }

  // ----- where the dashes are -----

  /** `s` starts with five dashes and then `c`, has no dash up to its last five characters, and ends with dashes. */
  ghost predicate Dashed(s: string, c: char) {
    && |s| >= 11 && s[5] == c != '-'
    && forall i :: 0 <= i < |s| ==> (s[i] == '-' <==> i < 5 || |s| - 5 <= i)
  }

  lemma HeaderDashed(name: string)
    requires NoDash(name)
    ensures Dashed(Header(name), 'B') && At(Header(name), 0, BEGIN) && At(Header(name), |name| + 10, DASHES)
  {
    assert Header(name)[0..10] == BEGIN && Header(name)[|name| + 10..|name| + 15] == DASHES;
  }

  lemma FooterDashed(name: string)
    requires NoDash(name)
    ensures Dashed(Footer(name), 'E') && At(Footer(name), 0, END) && At(Footer(name), |name| + 8, DASHES)
  {
    assert Footer(name)[0..8] == END && Footer(name)[|name| + 8..|name| + 13] == DASHES;
  }

  lemma AtDashes(s: string, j: int, pat: string)
    requires At(s, j, pat) && |pat| >= 5 && pat[..5] == DASHES
    ensures s[j] == '-' && s[j + 4] == '-' && forall k :: j <= k < j + 5 ==> s[k] == '-'
    ensures |pat| > 5 ==> s[j + 5] == pat[5]
  {
    assert forall k :: 0 <= k < |pat| ==> s[j + k] == s[j..j + |pat|][k] == pat[k];
    assert forall k :: 0 <= k < 5 ==> pat[..5][k] == '-';
    assert forall k :: j <= k < j + 5 ==> s[k] == s[j + (k - j)];
  }

  /** A label holds no five dashes in a row and does not run into the five that follow it. */
  ghost predicate Label(name: string) {
    forall j {:trigger At(name + DASHES, j, DASHES)} :: 0 <= j < |name| ==> !At(name + DASHES, j, DASHES)
  }

  lemma NoDashIsLabel(name: string)
    requires NoDash(name)
    ensures Label(name)
  {
    forall j {:trigger At(name + DASHES, j, DASHES)} | 0 <= j < |name| ensures !At(name + DASHES, j, DASHES) {
      assert (name + DASHES)[j..][0] == name[j] != DASHES[0];
    }
  }

  /** `s` is a marker of dashes and five letters or more, a label, and five dashes. */
  ghost predicate Marked(s: string, mark: string, name: string) {
    && s == mark + (name + DASHES) && Label(name)
    && |mark| >= 8 && forall i :: 5 <= i < |mark| ==> mark[i] != '-'
  }

  lemma MarkedDashes(s: string, mark: string, name: string, j: int)
    requires Marked(s, mark, name) && At(s, j, DASHES)
    ensures j <= 0 || j == |s| - 5
  {
    assert forall k :: 5 <= k < |mark| ==> s[k] == mark[k];
    assert s[5] != '-';
    if 0 < j < |mark| {
      AtDashes(s, j, DASHES);
    } else if j >= |mark| {
      var tail := name + DASHES;
      assert s[j..] == tail[j - |mark|..];
      assert At(tail, j - |mark|, DASHES);
    }
  }

  lemma HeaderMarked(name: string)
    requires Label(name)
    ensures Marked(Header(name), BEGIN, name) && At(Header(name), 0, BEGIN) && At(Header(name), |name| + 10, DASHES)
    ensures Header(name)[5] == 'B' && Header(name)[0] == '-' && Header(name)[|name| + 14] == '-'
  {
    assert Header(name)[0..10] == BEGIN && Header(name)[|name| + 10..|name| + 15] == DASHES;
  }

  lemma FooterMarked(name: string)
    requires Label(name)
    ensures Marked(Footer(name), END, name) && At(Footer(name), 0, END) && At(Footer(name), |name| + 8, DASHES)
    ensures Footer(name)[5] == 'E' && Footer(name)[0] == '-' && Footer(name)[|name| + 12] == '-'
  {
    assert Footer(name)[0..8] == END && Footer(name)[|name| + 8..|name| + 13] == DASHES;
  }

  lemma PrefixAt(s: string, j: int, pat: string, longer: string)
    requires pat <= longer && At(s, j, longer)
    ensures At(s, j, pat)
  {
  }

  lemma FooterIsFooter(name: string)
    requires Label(name)
    ensures IsFooter(Footer(name))
  {
    var f := Footer(name);
    FooterMarked(name);
    forall j {:trigger At(f, j, END)} | 0 < j ensures !At(f, j, END) {
      if At(f, j, END) {
        PrefixAt(f, j, DASHES, END);
        MarkedDashes(f, END, name, j);
      }
    }
    forall j {:trigger At(f, j, DASHES)} | 8 <= j < |f| - 5 ensures !At(f, j, DASHES) {
      if At(f, j, DASHES) { MarkedDashes(f, END, name, j); }
    }
  }

  lemma LineEndIsUnique(h: string, name: string, mid: string, f: string, name': string, j: int)
    requires Marked(h, BEGIN, name) && Marked(f, END, name') && h[5] == 'B' && f[5] == 'E' && NoDash(mid) && mid != []
    requires At(h + mid + f, j, DASHED_LINE)
    ensures j == |h| - 5
  {
    var v, n := h + mid + f, |h| + |mid|;
    assert v[5] == h[5] && v[|h|] == mid[0] && v[n + 5] == f[5];
    assert forall k :: |h| <= k < n ==> v[k] == mid[k - |h|];
    AtDashes(v, j, DASHED_LINE);
    PrefixAt(v, j, DASHES, DASHED_LINE);
    if j + 5 <= |h| {
      assert [] + h + (mid + f) == v;
      AtInside([], h, mid + f, j, DASHES);
      MarkedDashes(h, BEGIN, name, j);
    } else if j >= n {
      assert v == (h + mid) + f + [];
      AtInside(h + mid, f, [], j - n, DASHES);
      MarkedDashes(f, END, name', j - n);
    }
  }

  lemma HeaderEndsThere(name: string, mid: string, name': string)
    requires Label(name) && NoDash(mid) && mid != [] && Label(name')
    ensures var v := Header(name) + mid + Footer(name');
      FoundAt(FindFrom(v, BEGIN, 0), 0) && FoundAt(HeaderEnd(v, 0), |Header(name)|)
  {
    var h, f := Header(name), Footer(name');
    var v := h + mid + f;
    HeaderMarked(name);
    FooterMarked(name');
    assert v == [] + h + (mid + f);
    FindInside([], h, mid + f, BEGIN, 0, 0);
    if FindFrom(v, DASHED_LINE, 0).Some? {
      LineEndIsUnique(h, name, mid, f, name', FindFrom(v, DASHED_LINE, 0).value);
    } else {
      forall j {:trigger At(h, j, DASHES)} | 10 <= j < |name| + 10 ensures !At(h, j, DASHES) {
        if At(h, j, DASHES) { MarkedDashes(h, BEGIN, name, j); }
      }
      FindInside([], h, mid + f, DASHES, 10, |name| + 10);
    }
  }

  lemma {:induction false} LocateDamaged(name: string, mid: string, name': string)
    requires Label(name) && NoDash(mid) && Label(name') && mid != []
    ensures var h, f := Header(name), Footer(name');
      Locate(h + mid + f).Some? && MarksParts(Locate(h + mid + f).value, h, mid, f)
  {
    var h, f := Header(name), Footer(name');
    FooterIsFooter(name');
    HeaderEndsThere(name, mid, name');
    LocateFooter(h + mid, f, |f| - 5, END, DASHES);
    LocateAt(h + mid + f, 0, |h|, |h + mid|, |h + mid| + |f| - 5);
  }

  lemma {:induction false} DissectDamaged(name: string, mid: string, name': string)
    requires Label(name) && NoDash(mid) && Label(name') && DropSpace(mid) != []
    ensures Dissect(Header(name) + mid + Footer(name')) == Block(Header(name), DropSpace(mid), Footer(name'))
  {
    LocateDamaged(name, mid, name');
    HeaderMarked(name);
    Edges(Header(name), BEGIN, DASHES);
    FooterIsFooter(name');
    FooterEdges(Footer(name'));
    TakePartsApart(Header(name), mid, Footer(name'), Locate(Header(name) + mid + Footer(name')).value);
  }

  // ----- surrounding white space -----

  lemma {:induction false} TrimLeft(left: string, s: string)
    requires AllSpace(left)
    ensures TrimStart(Rust, left + s) == TrimStart(Rust, s)
  {
    if left == [] {
      assert left + s == s;
    } else {
      assert (left + s)[1..] == left[1..] + s;
      TrimLeft(left[1..], s);
    }
  }

  lemma {:induction false} TrimRight(right: string)
    requires AllSpace(right)
    ensures TrimEnd(Rust, right) == []
  {
    if right != [] { TrimRight(right[1..]); }
  }

  lemma TrimAround(left: string, core: string, right: string)
    requires AllSpace(left) && AllSpace(right)
    requires core != [] && !IsSpace(Rust, core[0]) && !IsSpace(Rust, core[|core| - 1])
    ensures Trim(Rust, left + core + right) == core
  {
    assert left + core + right == left + (core + right);
    TrimLeft(left, core + right);
    TrimEndConcat(Rust, core, right);
    TrimRight(right);
  }

  // ----- the main results -----

  /** For any labels, the repaired block depends only on the characters of the body that are not white
      space: inserting or dropping white space between, before or after the markers changes nothing. */
  lemma {:induction false} NormalizePreservesKey(left: string, name: string, mid: string, name': string, right: string)
    requires AllSpace(left) && AllSpace(right)
    requires Label(name) && NoDash(mid) && Label(name') && DropSpace(mid) != []
    ensures Normalize(left + (Header(name) + mid + Footer(name')) + right)
         == Repaired(Rebuild(Header(name), DropSpace(mid), Footer(name')))
  {
    var core := Header(name) + mid + Footer(name');
    HeaderMarked(name);
    FooterMarked(name');
    assert core[0] == Header(name)[0] && core[|core| - 1] == Footer(name')[|Footer(name')| - 1];
    TrimAround(left, core, right);
    DissectDamaged(name, mid, name');
  }

  function Joined(rows: seq<string>): string {
    if rows == [] then [] else rows[0] + Joined(rows[1..])
  }

  lemma {:induction false} WrapFirstLine(s: string, c: nat)
    requires Ascii(s) && NoSpace(s) && s != [] && c == (if |s| < WIDTH then |s| else WIDTH)
    ensures Wrap(Bytes(s)) == s[..c] + "\n" + Wrap(Bytes(s[c..]))
    ensures Ascii(s[c..]) && NoSpace(s[c..]) && '\n' !in s[..c] && '\r' !in s[..c]
  {
    var b := Bytes(s);
    assert s == s[..c] + s[c..];
    assert forall x :: x in s[..c] || x in s[c..] ==> x in s;
    AsciiBytes(s);
    AsciiBytes(s[..c]);
    BytesConcat(s[..c], s[c..]);
    assert b[..c] == Bytes(s[..c]) && b[c..] == Bytes(s[c..]);
    FromUtf8Decodes(s[..c]);
    assert IsSpace(Rust, '\n') && IsSpace(Rust, '\r');
  }

  /** All rows are full, except that the last one may be shorter; together they spell `s`. */
  predicate FullRows(rows: seq<string>, s: string) {
    && Joined(rows) == s
    && (forall i :: 0 <= i < |rows| - 1 ==> |rows[i]| == 64)
    && (rows != [] ==> 0 < |rows[|rows| - 1]| <= 64)
  }

  lemma {:induction false} WrapAscii(s: string)
    requires Ascii(s) && NoSpace(s)
    ensures FullRows(Lines(Wrap(Bytes(s))), s)
    decreases |s|
  {
    if s != [] {
      var c := if |s| < WIDTH then |s| else WIDTH;
      WrapFirstLine(s, c);
      WrapAscii(s[c..]);
      LinesCons(s[..c], Wrap(Bytes(s[c..])));
      FullRowsCons(s, c, Lines(Wrap(Bytes(s[c..]))));
    }
  }

  lemma FullRowsCons(s: string, c: nat, tail: seq<string>)
    requires 0 < c <= |s| && c <= WIDTH && (c < WIDTH ==> c == |s|) && FullRows(tail, s[c..])
    ensures FullRows([s[..c]] + tail, s)
  {
    var rows := [s[..c]] + tail;
    assert rows[1..] == tail && s == s[..c] + s[c..];
    if tail != [] {
      assert Joined(tail) == tail[0] + Joined(tail[1..]);
      assert |tail[0]| > 0;
    }
  }

  /** The body lines of a repaired block hold exactly the key, 64 characters to a line. */
  lemma RepairedBodyLines(left: string, name: string, mid: string, name': string, right: string)
    requires AllSpace(left) && AllSpace(right) && Ascii(mid)
    requires Label(name) && NoDash(mid) && Label(name') && DropSpace(mid) != []
    ensures exists body: string ::
      && Normalize(left + (Header(name) + mid + Footer(name')) + right)
           == Repaired(Header(name) + ("\n" + body) + Footer(name'))
      && FullRows(Lines(body), DropSpace(mid))
  {
    NormalizePreservesKey(left, name, mid, name', right);
    DropSpaceLeavesNone(mid);
    DropSpaceAscii(mid);
    WrapAscii(DropSpace(mid));
    var body := Wrap(Bytes(DropSpace(mid)));
    assert Rebuild(Header(name), DropSpace(mid), Footer(name')) == Header(name) + ("\n" + body) + Footer(name');
  }

  lemma {:induction false} DropSpaceAscii(s: string)
    requires Ascii(s)
    ensures Ascii(DropSpace(s))
  {
    if s != [] {
      assert forall c :: c in s[1..] ==> c in s;
      DropSpaceAscii(s[1..]);
      assert s[0] in s;
    }
  }

  // ----- where repair panics -----

  ghost predicate Occurs(v: string, pat: string, from: int, upTo: int) {
    exists i {:trigger At(v, i, pat)} :: from <= i <= upTo && At(v, i, pat)
  }

  /** No dashes that could close a header at `b` come before `e`: none at the end of a line if there are any
      such at all, and otherwise none. */
  ghost predicate HeaderUnclosed(v: string, b: int, e: int) {
    if Occurs(v, DASHED_LINE, b, |v|) then !Occurs(v, DASHED_LINE, b, e - 5) else !Occurs(v, DASHES, b + 10, e - 5)
  }

  lemma EndIsNotInsideBegin(v: string, b: int, e: int)
    requires At(v, b, BEGIN) && At(v, e, END) && b <= e
    ensures b + 10 <= e
  {
    AtDashes(v, b, BEGIN);
    AtDashes(v, e, END);
    var begin := v[b..b + 10];
    assert begin == BEGIN;
    assert forall k :: 5 <= k < 10 ==> v[b + k] == begin[k] && begin[k] != '-';
  }

  lemma HeaderEndsBehind(v: string, b: nat, e: nat)
    requires At(v, b, BEGIN) && b + 10 <= e <= |v| && Occurs(v, DASHES, e + 8, |v|)
    ensures HeaderEnd(v, b).Some? && (HeaderEnd(v, b).value > e <==> HeaderUnclosed(v, b, e))
  {
    var line := FindFrom(v, DASHED_LINE, b);
    assert line.Some? <==> Occurs(v, DASHED_LINE, b, |v|);
    if line.Some? {
      assert line.value <= e - 5 <==> Occurs(v, DASHED_LINE, b, e - 5);
    } else {
      var first := FindFrom(v, DASHES, b + 10);
      assert first.Some?;
      assert first.value <= e - 5 <==> Occurs(v, DASHES, b + 10, e - 5);
    }
  }

  lemma {:induction false} OverlapExactly(v: string, b: nat, e: nat)
    requires FoundAt(FindFrom(v, BEGIN, 0), b) && FoundAt(FindLast(v, END), e)
    ensures Dissect(v).Overlap? <==> b <= e && Occurs(v, DASHES, e + 8, |v|) && HeaderUnclosed(v, b, e)
  {
    if b <= e {
      EndIsNotInsideBegin(v, b, e);
      assert FindFrom(v, DASHES, e + 8).Some? <==> Occurs(v, DASHES, e + 8, |v|);
      if Occurs(v, DASHES, e + 8, |v|) { HeaderEndsBehind(v, b, e); }
    }
  }

  /** Repair panics exactly when the value holds both markers, the last footer is complete, and nothing before
      that footer closes the first header. */
  lemma {:induction false} PanicsExactly(value: string)
    ensures var v := Trim(Rust, value);
      Normalize(value).Panic? <==>
        match (FindFrom(v, BEGIN, 0), FindLast(v, END))
        case (Some(b), Some(e)) => b <= e && Occurs(v, DASHES, e + 8, |v|) && HeaderUnclosed(v, b, e)
        case _ => false
  {
    var v := Trim(Rust, value);
    match (FindFrom(v, BEGIN, 0), FindLast(v, END)) {
      case (Some(b), Some(e)) => OverlapExactly(v, b, e);
      case _ =>
    }
  }

  ghost function OneLineBlockThenText(name: string, mid: string, name': string, tail: string): string {
    Header(name) + mid + Footer(name') + ("\n" + tail)
  }

  lemma DashesOfOneLineBlock(name: string, mid: string, name': string, tail: string)
    requires NoDash(name) && NoDash(mid) && NoDash(name') && NoDash(tail) && mid != []
    ensures var v, h, e := OneLineBlockThenText(name, mid, name', tail), |Header(name)|, |Header(name)| + |mid|;
      var n := e + |Footer(name')|;
      && (forall i :: 0 <= i < |v| ==> (v[i] == '-' <==> i < 5 || h - 5 <= i < h || e <= i < e + 5 || n - 5 <= i < n))
      && v[5] == 'B' && v[h] == mid[0] && v[e + 5] == 'E' && v[n] == '\n'
  {
    HeaderDashed(name);
    FooterDashed(name');
    var v, h, f := OneLineBlockThenText(name, mid, name', tail), Header(name), Footer(name');
    assert forall i :: 0 <= i < |h| ==> v[i] == h[i];
    assert forall i :: |h| <= i < |h| + |mid| ==> v[i] == mid[i - |h|];
    assert forall i :: |h| + |mid| <= i < |h| + |mid| + |f| ==> v[i] == f[i - |h| - |mid|];
    assert forall i :: |h| + |mid| + |f| < i < |v| ==> v[i] == tail[i - |h| - |mid| - |f| - 1];
  }

  lemma OccursInBlock(name: string, mid: string, name': string, tail: string)
    requires NoDash(name) && NoDash(name')
    ensures var v, e := OneLineBlockThenText(name, mid, name', tail), |Header(name)| + |mid|;
      var n := e + |Footer(name')|;
      At(v, 0, BEGIN) && At(v, e, END) && At(v, n - 5, DASHES) && At(v, n - 5, DASHED_LINE)
  {
    var h, f := Header(name), Footer(name');
    var v, e := OneLineBlockThenText(name, mid, name', tail), |h| + |mid|;
    assert v[0..10] == h[0..10] == BEGIN;
    assert v[e..e + 8] == f[0..8] == END;
    assert v[e + |f| - 5..e + |f|] == f[|f| - 5..|f|] == DASHES;
    assert v[e + |f| - 5..e + |f| + 1] == v[e + |f| - 5..e + |f|] + [v[e + |f|]] == DASHED_LINE;
  }

  /** A block pasted on one line with a line of text after it: the only dashes at the end of a line are
      the footer's, so the header is taken to end there, behind the footer's start. */
  lemma TrailingTextPanics(name: string, mid: string, name': string, tail: string)
    requires NoDash(name) && NoDash(mid) && NoDash(name') && NoDash(tail)
    requires mid != [] && mid[0] != '\n' && tail != [] && !IsSpace(Rust, tail[|tail| - 1])
    ensures Normalize(OneLineBlockThenText(name, mid, name', tail)).Panic?
  {
    var v := OneLineBlockThenText(name, mid, name', tail);
    var e := |Header(name)| + |mid|;
    DashesOfOneLineBlock(name, mid, name', tail);
    OccursInBlock(name, mid, name', tail);
    assert Trim(Rust, v) == v by {
      assert v[|v| - 1] == tail[|tail| - 1];
      TrimIsTrimmed(Rust, v);
    }
    OverlapIsFound(v, |Header(name)|, e, e + |Footer(name')|);
  }

  lemma OverlapIsFound(v: string, h: nat, e: nat, n: nat)
    requires 11 <= h < e && e + 13 <= n < |v|
    requires forall i :: 0 <= i < |v| ==> (v[i] == '-' <==> i < 5 || h - 5 <= i < h || e <= i < e + 5 || n - 5 <= i < n)
    requires v[5] == 'B' && v[h] != '\n' && v[e + 5] == 'E' && v[n] == '\n'
    requires At(v, 0, BEGIN) && At(v, e, END) && At(v, n - 5, DASHES) && At(v, n - 5, DASHED_LINE)
    ensures Dissect(v).Overlap?
  {
    var first, close := FindFrom(v, BEGIN, 0), FindFrom(v, DASHES, e + 8);
    assert close.Some?;
    var last, line := FindLast(v, END), FindFrom(v, DASHED_LINE, 0);
    AtDashes(v, last.value, END);
    AtDashes(v, line.value, DASHED_LINE);
    assert last.value == e && line.value == n - 5;
  }
}
