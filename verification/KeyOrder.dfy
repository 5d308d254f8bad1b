/** The ascending key order in which a `BTreeMap<String, _>` iterates. */
module KeyOrder {

  /** Strings compare by code point, which for UTF-8 text is also their byte order. */
  predicate Less(a: string, b: string) {
    b != [] && (a == [] || a[0] < b[0] || (a[0] == b[0] && Less(a[1..], b[1..])))
  }

  lemma {:induction false} LessTotal(a: string, b: string)
    ensures Less(a, b) || a == b || Less(b, a)
  {
    if a != [] && b != [] && a[0] == b[0] {
      LessTotal(a[1..], b[1..]);
      assert a == [a[0]] + a[1..] && b == [b[0]] + b[1..];
    }
  }

  lemma {:induction false} LessAsymmetric(a: string, b: string)
    requires Less(a, b)
    ensures !Less(b, a) && a != b
  {
    if a != [] && a[0] == b[0] {
      LessAsymmetric(a[1..], b[1..]);
    }
  }

  lemma {:induction false} LessTransitive(a: string, b: string, c: string)
    requires Less(a, b) && Less(b, c)
    ensures Less(a, c)
  {
    if a != [] && a[0] == b[0] && b[0] == c[0] {
      LessTransitive(a[1..], b[1..], c[1..]);
    }
  }

  predicate IsLeast(k: string, s: set<string>) {
    k in s && forall j :: j in s && j != k ==> Less(k, j)
  }

  lemma {:induction false} LeastExists(s: set<string>)
    requires s != {}
    ensures exists k :: IsLeast(k, s)
  {
    var k :| k in s;
    if s == {k} {
      assert IsLeast(k, s);
    } else {
      assert s - {k} != {} by {
        assert s == (s - {k}) + {k};
      }
      LeastExists(s - {k});
      var l :| IsLeast(l, s - {k});
      LessTotal(k, l);
      if Less(k, l) {
        forall j | j in s && j != k ensures Less(k, j) {
          if j != l { LessTransitive(k, l, j); }
        }
        assert IsLeast(k, s);
      } else {
        assert IsLeast(l, s);
      }
    }
  }

  predicate Distinct(ks: seq<string>) {
    forall i, j :: 0 <= i < j < |ks| ==> ks[i] != ks[j]
  }

  predicate Ascending(ks: seq<string>) {
    forall i, j :: 0 <= i < j < |ks| ==> Less(ks[i], ks[j])
  }

  /** The keys in the order a `BTreeMap` visits them. */
  ghost function SortedKeys(s: set<string>): (ks: seq<string>)
    ensures Ascending(ks) && Distinct(ks) && forall k :: k in ks <==> k in s
  {
    if s == {} then []
    else
      LeastExists(s);
      var k :| IsLeast(k, s);
      var rest := SortedKeys(s - {k});
      assert forall j :: 0 <= j < |rest| ==> rest[j] in rest;
      [k] + rest
  }

  /** The least key is unique, so taking it first gives the one ascending order. */
  lemma SortedHead(s: set<string>, k: string)
    requires IsLeast(k, s)
    ensures SortedKeys(s) == [k] + SortedKeys(s - {k})
  {
    var head := SortedKeys(s)[0];
    if head != k {
      LessAsymmetric(k, head);
    }
  }

  /** The key visited first among those still to be visited. */
  method NextKey(todo: set<string>) returns (k: string)
    requires todo != {}
    ensures k in todo && SortedKeys(todo) == [k] + SortedKeys(todo - {k})
    ensures SortedKeys(todo)[1..] == SortedKeys(todo - {k})
  {
    LeastExists(todo);
    k :| k in todo && forall j :: j in todo && j != k ==> Less(k, j);
    SortedHead(todo, k);
  }
}
