/** Which text the repair of a PEM block takes for its header, its body and its footer, for every value. */
module PemPlaces {
  import opened Escaping
  import opened Pem
  import opened PemKey
  import opened Sorting
  import opened Text
  import opened Wrappers

  // ----- the first and the last occurrence -----

  ghost predicate First(v: string, pat: string, from: int, i: int) {
    from <= i && At(v, i, pat) && forall j {:trigger At(v, j, pat)} :: from <= j < i ==> !At(v, j, pat)
  }

  ghost predicate Last(v: string, pat: string, i: int) {
    At(v, i, pat) && forall j {:trigger At(v, j, pat)} :: i < j ==> !At(v, j, pat)
  }

  lemma FindsFirst(v: string, pat: string, from: nat, i: int)
    requires from <= |v|
    ensures FoundAt(FindFrom(v, pat, from), i) <==> First(v, pat, from, i)
  {
  }

  lemma FindsLast(v: string, pat: string, i: int)
    ensures FoundAt(FindLast(v, pat), i) <==> Last(v, pat, i)
  {
  }

  // ----- the places of a block -----

  /** The header is closed by the first dashes at the end of a line, or, if no line from it on ends in dashes, by the
      first dashes behind its marker. */
  ghost predicate Closes(v: string, begin: string, dashes: string, line: string, b: int, h: int) {
    if Occurs(v, line, b, |v|) then First(v, line, b, h - |dashes|) else First(v, dashes, b + |begin|, h - |dashes|)
  }

  /** The first header begins at `b` and ends at `h`; the last footer begins at `e` and ends at `f`. */
  ghost predicate PlacedBy(v: string, begin: string, end: string, dashes: string, line: string, b: int, h: int, e: int,
                           f: int) {
    && First(v, begin, 0, b) && Last(v, end, e) && b <= e
    && Closes(v, begin, dashes, line, b, h) && First(v, dashes, e + |end|, f - |dashes|)
  }

  ghost predicate Placed(v: string, b: int, h: int, e: int, f: int) {
    PlacedBy(v, BEGIN, END, DASHES, DASHED_LINE, b, h, e, f)
  }

  lemma AtFits(v: string, i: int, pat: string)
    requires At(v, i, pat)
    ensures i + |pat| <= |v|
  {
  }

  lemma HeaderEndIs(v: string, begin: string, dashes: string, line: string, b: nat, h: int)
    requires At(v, b, begin) && |line| == |dashes| + 1
    ensures FoundAt(HeaderEndBy(v, b, begin, dashes, line), h) <==> Closes(v, begin, dashes, line, b, h)
  {
    AtFits(v, b, begin);
    assert FindFrom(v, line, b).Some? <==> Occurs(v, line, b, |v|);
    FindsFirst(v, line, b, h - |dashes|);
    FindsFirst(v, dashes, b + |begin|, h - |dashes|);
  }

  ghost predicate AreMarks(r: Option<Marks>, b: int, h: int, e: int, f: int) {
    r.Some? && r.value.hdrStart == b && r.value.hdrEnd == h && r.value.ftrStart == e && r.value.ftrEnd == f
  }

  lemma PlacedIsLocated(v: string, begin: string, end: string, dashes: string, line: string, b: int, h: int, e: int,
                        f: int)
    requires |line| == |dashes| + 1 && PlacedBy(v, begin, end, dashes, line, b, h, e, f)
    ensures AreMarks(LocateBy(v, begin, end, dashes, line), b, h, e, f)
  {
    FindsFirst(v, begin, 0, b);
    FindsLast(v, end, e);
    AtFits(v, e, end);
    HeaderEndIs(v, begin, dashes, line, b, h);
    FindsFirst(v, dashes, e + |end|, f - |dashes|);
    LocateByAt(v, begin, end, dashes, line, b, h, e, f - |dashes|);
  }

  /** What the four searches found. */
  lemma LocatedBySearch(v: string, begin: string, end: string, dashes: string, line: string, m: Marks)
    requires |line| == |dashes| + 1 && LocateBy(v, begin, end, dashes, line) == Some(m)
    ensures FoundAt(FindFrom(v, begin, 0), m.hdrStart) && FoundAt(FindLast(v, end), m.ftrStart)
    ensures m.hdrStart <= m.ftrStart && m.ftrStart + |end| <= |v|
    ensures FoundAt(HeaderEndBy(v, m.hdrStart, begin, dashes, line), m.hdrEnd)
    ensures FoundAt(FindFrom(v, dashes, m.ftrStart + |end|), m.ftrEnd - |dashes|)
  {
  }

  lemma LocatedIsPlaced(v: string, begin: string, end: string, dashes: string, line: string, m: Marks)
    requires |line| == |dashes| + 1 && LocateBy(v, begin, end, dashes, line) == Some(m)
    ensures PlacedBy(v, begin, end, dashes, line, m.hdrStart, m.hdrEnd, m.ftrStart, m.ftrEnd)
  {
    LocatedBySearch(v, begin, end, dashes, line, m);
    FindsFirst(v, begin, 0, m.hdrStart);
    FindsLast(v, end, m.ftrStart);
    HeaderEndIs(v, begin, dashes, line, m.hdrStart, m.hdrEnd);
    FindsFirst(v, dashes, m.ftrStart + |end|, m.ftrEnd - |dashes|);
  }

  // ----- what repair does with a block -----

  lemma {:induction false} DropsAll(s: string)
    ensures DropSpace(s) == [] <==> AllSpace(s)
  {
    if s != [] { DropsAll(s[1..]); }
  }

  /** The characters that are not white space, in order. */
  lemma {:induction false} DropsSpaceOnly(s: string)
    ensures DropSpace(s) == Filter(s, c => !IsSpace(Rust, c))
  {
    if s != [] { DropsSpaceOnly(s[1..]); }
  }

  /** For every value in which a block is placed: the repair panics if the footer begins before the header ends,
      leaves the value alone if there is nothing between them, and otherwise gives the header, the characters between
      them that are not white space, and the footer. What else the value holds is dropped. */
  lemma {:induction false} RepairsPlaced(value: string, v: string, b: int, h: int, e: int, f: int)
    requires v == Trim(Rust, value) && Placed(v, b, h, e, f)
    ensures 0 <= b <= h <= |v| && 0 <= e <= f <= |v|
    ensures Normalize(value) ==
      if e < h then Panic
      else if AllSpace(v[h..e]) then Repaired(value)
      else Repaired(Rebuild(v[b..h], DropSpace(v[h..e]), v[e..f]))
  {
    PlacedIsLocated(v, BEGIN, END, DASHES, DASHED_LINE, b, h, e, f);
    MarksAreMarked(v);
    HeaderEdges(v[b..h]);
    FooterEdges(v[e..f]);
    if h <= e { DropsAll(v[h..e]); }
  }

  /** And every other value is left alone. */
  lemma {:induction false} LeavesUnplaced(value: string, v: string)
    requires v == Trim(Rust, value) && forall b, h, e, f :: !Placed(v, b, h, e, f)
    ensures Normalize(value) == Repaired(value)
  {
    var r := Locate(v);
    if r.Some? {
      var m := r.value;
      LocatedIsPlaced(v, BEGIN, END, DASHES, DASHED_LINE, m);
      assert Placed(v, m.hdrStart, m.hdrEnd, m.ftrStart, m.ftrEnd);
    }
  }

  // ----- a block with other text around it -----

  lemma TrimAroundText(pre: string, core: string, post: string)
    requires core != [] && !IsSpace(Rust, core[0]) && !IsSpace(Rust, core[|core| - 1])
    ensures Trim(Rust, pre + core + post) == TrimStart(Rust, pre) + core + TrimEnd(Rust, post)
  {
    var p := TrimStart(Rust, pre);
    assert pre + core + post == pre + (core + post) && p + (core + post) == (p + core) + post;
    TrimStartKeeps(pre, core + post);
    TrimEndConcat(Rust, p + core, post);
  }

  lemma {:induction false} TrimStartKeeps(a: string, s: string)
    requires s != [] && !IsSpace(Rust, s[0])
    ensures TrimStart(Rust, a + s) == TrimStart(Rust, a) + s
  {
    if a == [] {
      assert a + s == s;
    } else {
      assert (a + s)[1..] == a[1..] + s;
      TrimStartKeeps(a[1..], s);
    }
  }

  lemma NowhereInPart(s: string, i: nat, j: nat, pat: string)
    requires i <= j <= |s| && !Contains(s, pat)
    ensures forall k {:trigger At(s[i..j], k, pat)} :: !At(s[i..j], k, pat)
  {
    ContainsWhere(s, pat);
    forall k {:trigger At(s[i..j], k, pat)} ensures !At(s[i..j], k, pat) {
      if At(s[i..j], k, pat) {
        AtFits(s[i..j], k, pat);
        AtSlice(s, i, j, k, pat);
      }
    }
  }

  /** No header begins before this one: one that did would run into its dashes. */
  lemma FirstHeader(p: string, h: string, rest: string)
    requires !Contains(p, BEGIN) && At(h, 0, BEGIN)
    ensures First(p + h + rest, BEGIN, 0, |p|)
  {
    var v := p + h + rest;
    AtFits(h, 0, BEGIN);
    AtInside(p, h, rest, 0, BEGIN);
    AtDashes(h, 0, BEGIN);
    assert forall k :: 0 <= k < 5 ==> v[|p| + k] == h[k];
    forall j {:trigger At(v, j, BEGIN)} | 0 <= j < |p| ensures !At(v, j, BEGIN) {
      if At(v, j, BEGIN) { HeaderBefore(v, p, j); }
    }
  }

  lemma HeaderBefore(v: string, p: string, j: nat)
    requires |p| + 5 <= |v| && v[..|p|] == p && (forall k :: |p| <= k < |p| + 5 ==> v[k] == '-')
    requires j < |p| && At(v, j, BEGIN)
    ensures Contains(p, BEGIN)
  {
    AtFits(v, j, BEGIN);
    var s := v[j..j + 10];
    assert s == BEGIN;
    assert v[j + 5] == s[5] && v[j + 6] == s[6] && v[j + 7] == s[7] && v[j + 8] == s[8] && v[j + 9] == s[9];
    assert j + 10 <= |p|;
    assert p[j..j + 10] == v[j..j + 10];
    assert At(p, j, BEGIN);
    ContainsWhere(p, BEGIN);
  }

  /** No footer begins behind this one, unless its dashes are those of another marker. */
  lemma LastFooter(a: string, name: string, q: string)
    requires Label(name) && !Contains(DASHES + q, END)
    ensures Last(a + Footer(name) + q, END, |a|)
  {
    var f := Footer(name);
    var v := a + f + q;
    FooterMarked(name);
    AtInside(a, f, q, 0, END);
    forall j {:trigger At(v, j, END)} | |a| < j ensures !At(v, j, END) {
      if At(v, j, END) { FooterBehind(a, name, q, j); }
    }
  }

  lemma FooterBehind(a: string, name: string, q: string, j: int)
    requires Label(name) && |a| < j && At(a + Footer(name) + q, j, END)
    ensures Contains(DASHES + q, END)
  {
    var f := Footer(name);
    var v := a + f + q;
    FooterMarked(name);
    AtFits(v, j, END);
    if j < |a| + |f| - 5 {
      PrefixAt(v, j, DASHES, END);
      AtInside(a, f, q, j - |a|, DASHES);
      MarkedDashes(f, END, name, j - |a|);
    } else {
      InTail(v, a, f, q, j, DASHES, END);
    }
  }

  lemma InTail(v: string, a: string, f: string, q: string, j: int, dashes: string, pat: string)
    requires v == a + f + q && |f| >= |dashes| && At(f, |f| - |dashes|, dashes)
    requires j >= |a| + |f| - |dashes| && At(v, j, pat)
    ensures Contains(dashes + q, pat)
  {
    var n := |a| + |f| - |dashes|;
    assert f[|f| - |dashes|..] == dashes;
    assert v[n..] == dashes + q;
    assert v[j..] == (dashes + q)[j - n..];
    assert At(dashes + q, j - n, pat);
    ContainsWhere(dashes + q, pat);
  }

  lemma FooterCloses(a: string, name: string, q: string)
    requires Label(name)
    ensures First(a + Footer(name) + q, DASHES, |a| + 8, |a| + |Footer(name)| - 5)
  {
    var f := Footer(name);
    FooterIsFooter(name);
    FindInside(a, f, q, DASHES, 8, |f| - 5);
    FindsFirst(a + f + q, DASHES, |a| + 8, |a| + |f| - 5);
  }

  /** Either the header has a line of its own, or no line from it on ends in dashes. */
  ghost predicate HeaderIsClosed(name: string, mid: string, name': string, post: string) {
    || (mid != [] && mid[0] == '\n')
    || !Contains(Header(name) + mid + Footer(name') + TrimEnd(Rust, post), DASHED_LINE)
  }

  lemma HeaderHasLine(p: string, name: string, rest: string)
    requires Label(name) && rest != [] && rest[0] == '\n'
    ensures Closes(p + Header(name) + rest, BEGIN, DASHES, DASHED_LINE, |p|, |p| + |Header(name)|)
  {
    var h := Header(name);
    var v, n := p + h + rest, |p| + |h| - 5;
    HeaderMarked(name);
    assert v[|p| + 5] == h[5];
    assert v[n..n + 6] == h[|h| - 5..|h|] + [rest[0]];
    assert h[|h| - 5..|h|] == DASHES && DASHES + "\n" == DASHED_LINE;
    assert At(v, n, DASHED_LINE);
    forall j {:trigger At(v, j, DASHED_LINE)} | |p| <= j < n ensures !At(v, j, DASHED_LINE) {
      if At(v, j, DASHED_LINE) {
        AtDashes(v, j, DASHED_LINE);
        PrefixAt(v, j, DASHES, DASHED_LINE);
        AtInside(p, h, rest, j - |p|, DASHES);
        MarkedDashes(h, BEGIN, name, j - |p|);
      }
    }
  }

  lemma HeaderHasNoLine(p: string, name: string, rest: string)
    requires Label(name) && !Contains(Header(name) + rest, DASHED_LINE)
    ensures Closes(p + Header(name) + rest, BEGIN, DASHES, DASHED_LINE, |p|, |p| + |Header(name)|)
  {
    var h := Header(name);
    var v, s := p + h + rest, h + rest;
    HeaderMarked(name);
    ContainsWhere(s, DASHED_LINE);
    forall j {:trigger At(v, j, DASHED_LINE)} | |p| <= j <= |v| ensures !At(v, j, DASHED_LINE) {
      assert v[j..] == s[j - |p|..];
      assert At(v, j, DASHED_LINE) <==> At(s, j - |p|, DASHED_LINE);
    }
    forall j {:trigger At(h, j, DASHES)} | 10 <= j < |h| - 5 ensures !At(h, j, DASHES) {
      if At(h, j, DASHES) { MarkedDashes(h, BEGIN, name, j); }
    }
    FindInside(p, h, rest, DASHES, 10, |h| - 5);
    FindsFirst(v, DASHES, |p| + 10, |p| + |h| - 5);
  }

  lemma Regrouped(p: string, h: string, mid: string, f: string, q: string)
    ensures p + (h + mid + f) + q == p + h + (mid + f + q) == p + h + mid + f + q
    ensures h + (mid + f + q) == h + mid + f + q
  {
  }

  lemma HeaderPlaced(p: string, name: string, h: string, rest: string, v: string, n: nat)
    requires Label(name) && !Contains(p, BEGIN) && h == Header(name) && v == p + h + rest && n == |p + h|
    requires (rest != [] && rest[0] == '\n') || !Contains(h + rest, DASHED_LINE)
    ensures First(v, BEGIN, 0, |p|) && Closes(v, BEGIN, DASHES, DASHED_LINE, |p|, n)
  {
    HeaderMarked(name);
    FirstHeader(p, h, rest);
    if rest != [] && rest[0] == '\n' { HeaderHasLine(p, name, rest); } else { HeaderHasNoLine(p, name, rest); }
  }

  lemma FooterPlaced(a: string, name: string, f: string, q: string, v: string, n: nat)
    requires Label(name) && !Contains(DASHES + q, END) && f == Footer(name) && v == a + f + q && n == |a + f|
    ensures Last(v, END, |a|) && First(v, DASHES, |a| + 8, n - 5)
  {
    LastFooter(a, name, q);
    FooterCloses(a, name, q);
  }

  lemma PlacedTogether(v: string, b: int, h: int, e: int, f: int)
    requires First(v, BEGIN, 0, b) && Closes(v, BEGIN, DASHES, DASHED_LINE, b, h)
    requires Last(v, END, e) && First(v, DASHES, e + 8, f - 5) && b <= e
    ensures Placed(v, b, h, e, f)
  {
  }

  lemma BlockIsPlaced(p: string, name: string, mid: string, name': string, q: string, h: string, f: string, v: string)
    requires h == Header(name) && f == Footer(name') && v == p + (h + mid + f) + q
    requires Label(name) && Label(name') && !Contains(p, BEGIN) && !Contains(DASHES + q, END)
    requires (mid != [] && mid[0] == '\n') || !Contains(h + mid + f + q, DASHED_LINE)
    ensures Placed(v, |p|, |p + h|, |p + h + mid|, |p + h + mid + f|)
  {
    Regrouped(p, h, mid, f, q);
    FirstOfRest(mid, f, q);
    HeaderPlaced(p, name, h, mid + f + q, v, |p + h|);
    FooterPlaced(p + h + mid, name', f, q, v, |p + h + mid + f|);
    PlacedTogether(v, |p|, |p + h|, |p + h + mid|, |p + h + mid + f|);
  }

  lemma FirstOfRest(mid: string, f: string, q: string)
    ensures mid != [] ==> (mid + f + q)[0] == mid[0]
  {
  }

  /** Text around a block is dropped, whichever way its header is closed: before it there is no header, and behind it
      no footer. Between them anything may stand, other blocks included: the first header and the last footer count. */
  lemma {:induction false} TextAroundIsDropped(pre: string, name: string, mid: string, name': string, post: string)
    requires Label(name) && Label(name') && DropSpace(mid) != []
    requires !Contains(pre, BEGIN) && !Contains(DASHES + post, END) && HeaderIsClosed(name, mid, name', post)
    ensures Normalize(pre + (Header(name) + mid + Footer(name')) + post)
         == Repaired(Rebuild(Header(name), DropSpace(mid), Footer(name')))
  {
    var h, f := Header(name), Footer(name');
    var core, p, q := h + mid + f, TrimStart(Rust, pre), TrimEnd(Rust, post);
    HeaderMarked(name);
    FooterMarked(name');
    CoreEdges(h, mid, f);
    TrimAroundText(pre, core, post);
    PartsLackMarkers(pre, post);
    BlockIsPlaced(p, name, mid, name', q, h, f, p + core + q);
    PartSlices(p, h, mid, f, q);
    DropsAll(mid);
    RepairsPlaced(pre + core + post, p + core + q, |p|, |p + h|, |p + h + mid|, |p + h + mid + f|);
  }

  lemma PartSlices(p: string, h: string, mid: string, f: string, q: string)
    ensures var v := p + (h + mid + f) + q;
      && v[|p|..|p + h|] == h && v[|p + h|..|p + h + mid|] == mid
      && v[|p + h + mid|..|p + h + mid + f|] == f
  {
  }

  lemma CoreEdges(h: string, mid: string, f: string)
    requires h != [] && f != []
    ensures var core := h + mid + f; core != [] && core[0] == h[0] && core[|core| - 1] == f[|f| - 1]
  {
  }

  lemma PartsLackMarkers(pre: string, post: string)
    requires !Contains(pre, BEGIN) && !Contains(DASHES + post, END)
    ensures !Contains(TrimStart(Rust, pre), BEGIN) && !Contains(DASHES + TrimEnd(Rust, post), END)
  {
    var p, q := TrimStart(Rust, pre), TrimEnd(Rust, post);
    TrimStartShape(Rust, pre);
    TrimEndShape(Rust, post);
    assert p == pre[|pre| - |p|..|pre|];
    NowhereInPart(pre, |pre| - |p|, |pre|, BEGIN);
    ContainsWhere(p, BEGIN);
    var s := DASHES + post;
    assert DASHES + q == s[0..5 + |q|];
    NowhereInPart(s, 0, 5 + |q|, END);
    ContainsWhere(DASHES + q, END);
  }
}
