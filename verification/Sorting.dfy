/** Stable sorting by an integer key, as Python's `sorted` and Rust's `sort_by_key` promise it. */
module Sorting {

  /** In front of the first element that is not smaller. */
  function Insert<T>(x: T, s: seq<T>, key: T -> int): seq<T> {
    if s == [] || key(x) <= key(s[0]) then [x] + s else [s[0]] + Insert(x, s[1..], key)
  }

  function StableSort<T>(s: seq<T>, key: T -> int): seq<T> {
    if s == [] then [] else Insert(s[0], StableSort(s[1..], key), key)
  }

  ghost predicate SortedBy<T>(s: seq<T>, key: T -> int) {
    forall i, j :: 0 <= i < j < |s| ==> key(s[i]) <= key(s[j])
  }

  ghost predicate AtLeast<T>(lo: int, s: seq<T>, key: T -> int) {
    forall i :: 0 <= i < |s| ==> lo <= key(s[i])
  }

  lemma SortedCons<T>(h: T, s: seq<T>, key: T -> int)
    requires SortedBy(s, key) && AtLeast(key(h), s, key)
    ensures SortedBy([h] + s, key)
  {
  }

  lemma {:induction false} InsertSorted<T>(x: T, s: seq<T>, key: T -> int, lo: int)
    requires SortedBy(s, key) && AtLeast(lo, s, key) && lo <= key(x)
    ensures SortedBy(Insert(x, s, key), key) && AtLeast(lo, Insert(x, s, key), key)
  {
    if s == [] || key(x) <= key(s[0]) {
      SortedCons(x, s, key);
    } else {
      InsertSorted(x, s[1..], key, key(s[0]));
      SortedCons(s[0], Insert(x, s[1..], key), key);
    }
  }

  lemma {:induction false} InsertMultiset<T>(x: T, s: seq<T>, key: T -> int)
    ensures multiset(Insert(x, s, key)) == multiset([x] + s)
  {
    if s != [] && key(x) > key(s[0]) {
      InsertMultiset(x, s[1..], key);
      assert s == [s[0]] + s[1..];
    }
  }

  /** The result is in order and a rearrangement of the input. */
  lemma {:induction false} SortSorts<T>(s: seq<T>, key: T -> int)
    ensures SortedBy(StableSort(s, key), key) && multiset(StableSort(s, key)) == multiset(s)
  {
    if s != [] {
      SortSorts(s[1..], key);
      var t := StableSort(s[1..], key);
      InsertSorted(s[0], t, key, if t == [] || key(s[0]) <= key(t[0]) then key(s[0]) else key(t[0]));
      InsertMultiset(s[0], t, key);
      assert s == [s[0]] + s[1..];
    }
  }

  lemma SortSize<T>(s: seq<T>, key: T -> int)
    ensures |StableSort(s, key)| == |s|
  {
    SortSorts(s, key);
    assert |multiset(StableSort(s, key))| == |multiset(s)|;
  }

  function Filter<T>(s: seq<T>, p: T -> bool): seq<T> {
    if s == [] then []
    else if p(s[0]) then [s[0]] + Filter(s[1..], p)
    else Filter(s[1..], p)
  }

  lemma {:induction false} FilterConcat<T>(a: seq<T>, b: seq<T>, p: T -> bool)
    ensures Filter(a + b, p) == Filter(a, p) + Filter(b, p)
  {
    if a == [] {
      assert a + b == b;
    } else {
      assert (a + b)[1..] == a[1..] + b;
      FilterConcat(a[1..], b, p);
    }
  }

  lemma {:induction false} FilterMember<T>(s: seq<T>, p: T -> bool, x: T)
    ensures x in Filter(s, p) <==> x in s && p(x)
  {
    if s != [] { FilterMember(s[1..], p, x); }
  }

  lemma {:induction false} FilterAtLeast<T>(lo: int, s: seq<T>, key: T -> int, p: T -> bool)
    requires AtLeast(lo, s, key)
    ensures AtLeast(lo, Filter(s, p), key)
  {
    if s != [] { FilterAtLeast(lo, s[1..], key, p); }
  }

  lemma {:induction false} FilterInsert<T>(x: T, s: seq<T>, key: T -> int, p: T -> bool)
    requires SortedBy(s, key)
    ensures Filter(Insert(x, s, key), p) == if p(x) then Insert(x, Filter(s, p), key) else Filter(s, p)
  {
    if s == [] || key(x) <= key(s[0]) {
      assert ([x] + s)[1..] == s;
      if s != [] { FilterAtLeast(key(s[0]), s, key, p); }
    } else {
      FilterInsert(x, s[1..], key, p);
      assert ([s[0]] + Insert(x, s[1..], key))[1..] == Insert(x, s[1..], key);
      if p(s[0]) { assert Filter(s, p)[1..] == Filter(s[1..], p); }
    }
  }

  /** Stability: sorting commutes with picking out any kind of elements; in particular elements with the same
      key keep their order. */
  lemma {:induction false} SortIsStable<T>(s: seq<T>, key: T -> int, p: T -> bool)
    ensures Filter(StableSort(s, key), p) == StableSort(Filter(s, p), key)
  {
    if s != [] {
      SortIsStable(s[1..], key, p);
      SortSorts(s[1..], key);
      FilterInsert(s[0], StableSort(s[1..], key), key, p);
      if p(s[0]) { assert Filter(s, p)[1..] == Filter(s[1..], p); }
    }
  }

  /** What a pass over `s` has picked out before position `i`. */
  function Seen<T>(s: seq<T>, i: nat, p: T -> bool): seq<T>
    requires i <= |s|
  {
    if i == 0 then [] else Seen(s, i - 1, p) + if p(s[i - 1]) then [s[i - 1]] else []
  }

  lemma SeenNext<T>(s: seq<T>, i: nat, p: T -> bool)
    requires i < |s|
    ensures Seen(s, i + 1, p) == if p(s[i]) then Seen(s, i, p) + [s[i]] else Seen(s, i, p)
  {
    assert Seen(s, i, p) + [] == Seen(s, i, p);
  }

  lemma {:induction false} SeenIsFilter<T>(s: seq<T>, i: nat, p: T -> bool)
    requires i <= |s|
    ensures Seen(s, i, p) == Filter(s[..i], p)
  {
    if i > 0 {
      SeenIsFilter(s, i - 1, p);
      assert s[..i] == s[..i - 1] + [s[i - 1]];
      FilterConcat(s[..i - 1], [s[i - 1]], p);
    }
  }

  lemma {:induction false} SeenAll<T>(s: seq<T>, p: T -> bool)
    ensures Seen(s, |s|, p) == Filter(s, p)
  {
    SeenIsFilter(s, |s|, p);
    assert s[..|s|] == s;
  }
}
