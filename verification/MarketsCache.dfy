/** The bounded cache in front of the market endpoints. */
module MarketsCache {
  import opened Sorting
  import opened Wrappers

  const CACHE_MAX_KEYS := 500

  /** A stored value and when it was stored, in ticks of the monotonic clock. */
  datatype Stored<V> = Stored(at: int, value: V)

  datatype Put<V> = Put(key: string, stored: Stored<V>)

  /** The most recent value stored under a key. */
  function LastPut<V>(log: seq<Put<V>>, key: string): Option<Stored<V>> {
    if log == [] then None
    else if log[|log| - 1].key == key then Some(log[|log| - 1].stored)
    else LastPut(log[..|log| - 1], key)
  }

  lemma LastPutSnoc<V>(log: seq<Put<V>>, p: Put<V>)
    ensures forall k :: LastPut(log + [p], k) == if k == p.key then Some(p.stored) else LastPut(log, k)
  {
    assert (log + [p])[..|log|] == log;
  }

  // ----- eviction -----

  datatype Aged = Aged(key: string, at: int)

  function AgeOf(a: Aged): int { a.at }

  /** The keys in some order, each with the time it was stored. */
  ghost predicate Lists<V>(m: map<string, Stored<V>>, list: seq<Aged>) {
    && |list| == |m|
    && (forall a :: a in list ==> a.key in m && a.at == m[a.key].at)
    && (forall k :: k in m ==> Aged(k, m[k].at) in list)
  }

  function KeysOf(list: seq<Aged>): set<string> { set a | a in list :: a.key }

  /** `gone` holds the `n` oldest keys. */
  ghost predicate Oldest<V>(m: map<string, Stored<V>>, gone: set<string>, n: nat) {
    && gone <= m.Keys && |gone| == n
    && forall e, s :: e in gone && s in m && s !in gone ==> m[e].at <= m[s].at
  }

  method ListByAge<V>(m: map<string, Stored<V>>) returns (list: seq<Aged>)
    ensures Lists(m, list) && forall i, j :: 0 <= i < j < |list| ==> list[i].key != list[j].key
  {
    list := [];
    var todo := m.Keys;
    while todo != {}
      invariant todo <= m.Keys && |list| + |todo| == |m|
      invariant forall a :: a in list ==> a.key in m && a.key !in todo && a.at == m[a.key].at
      invariant forall k :: k in m && k !in todo ==> Aged(k, m[k].at) in list
      invariant forall i, j :: 0 <= i < j < |list| ==> list[i].key != list[j].key
      decreases todo
    {
      var k :| k in todo;
      todo := todo - {k};
      list := list + [Aged(k, m[k].at)];
    }
  }

  predicate DistinctKeys(list: seq<Aged>) {
    forall i, j :: 0 <= i < j < |list| ==> list[i].key != list[j].key
  }

  lemma {:induction false} OccursOnce(list: seq<Aged>, a: Aged)
    requires DistinctKeys(list)
    ensures multiset(list)[a] <= 1
  {
    if list != [] {
      OccursOnce(list[1..], a);
      assert list == [list[0]] + list[1..];
      if a == list[0] { assert a !in list[1..]; }
    }
  }

  lemma TwiceIsTwo(list: seq<Aged>, i: nat, j: nat)
    requires i < j < |list| && list[i] == list[j]
    ensures multiset(list)[list[i]] >= 2
  {
    assert list == list[..j] + list[j..];
    assert list[..j][i] == list[i] && list[j..][0] == list[i];
    assert list[i] in multiset(list[..j]) && list[i] in multiset(list[j..]);
  }

  /** Sorting the list keeps it a list of the same keys. */
  lemma SortedLists<V>(m: map<string, Stored<V>>, list: seq<Aged>)
    requires Lists(m, list) && DistinctKeys(list)
    ensures var sorted := StableSort(list, AgeOf); Lists(m, sorted) && DistinctKeys(sorted) && SortedBy(sorted, AgeOf)
  {
    var sorted := StableSort(list, AgeOf);
    SortSorts(list, AgeOf);
    SortSize(list, AgeOf);
    assert forall a :: a in sorted <==> a in multiset(sorted);
    assert forall a :: a in list <==> a in multiset(list);
    forall i, j | 0 <= i < j < |sorted| ensures sorted[i].key != sorted[j].key {
      assert sorted[i] in sorted && sorted[j] in sorted;
      if sorted[i].key == sorted[j].key {
        TwiceIsTwo(sorted, i, j);
        OccursOnce(list, sorted[i]);
        assert false;
      }
    }
  }

  lemma {:induction false} KeysOfSize(list: seq<Aged>)
    requires DistinctKeys(list)
    ensures |KeysOf(list)| == |list|
  {
    if list != [] {
      var init, last := list[..|list| - 1], list[|list| - 1];
      KeysOfSize(init);
      assert list == init + [last];
      assert KeysOf(list) == KeysOf(init) + {last.key};
      assert last.key !in KeysOf(init);
    }
  }

  lemma KeyAt(list: seq<Aged>, n: nat, j: nat)
    requires j < n <= |list|
    ensures list[j].key in KeysOf(list[..n])
  {
    assert list[..n][j] == list[j];
  }

  lemma KeyFrom(list: seq<Aged>, n: nat, key: string) returns (i: nat)
    requires n <= |list| && key in KeysOf(list[..n])
    ensures i < n && list[i].key == key
  {
    var a :| a in list[..n] && a.key == key;
    i :| i < n && list[..n][i] == a;
  }

  /** The first keys of a list sorted by age are the oldest ones. */
  lemma FirstAreOldest<V>(m: map<string, Stored<V>>, list: seq<Aged>, n: nat)
    requires Lists(m, list) && DistinctKeys(list) && SortedBy(list, AgeOf) && n <= |list|
    ensures Oldest(m, KeysOf(list[..n]), n)
  {
    var gone := KeysOf(list[..n]);
    KeysOfSize(list[..n]);
    forall e | e in gone ensures e in m && forall s :: s in m && s !in gone ==> m[e].at <= m[s].at {
      var i := KeyFrom(list, n, e);
      assert list[i] in list;
      forall s | s in m && s !in gone ensures m[e].at <= m[s].at {
        var j: nat :| j < |list| && list[j] == Aged(s, m[s].at);
        if j < n { KeyAt(list, n, j); }
        assert AgeOf(list[i]) <= AgeOf(list[j]);
      }
    }
  }

  method OldestKeys<V>(m: map<string, Stored<V>>, n: nat) returns (list: seq<Aged>)
    requires n <= |m|
    ensures Oldest(m, KeysOf(list), n)
  {
    list := ListByAge(m);
    SortedLists(m, list);
    list := StableSort(list, AgeOf);
    FirstAreOldest(m, list, n);
    list := list[..n];
  }

  // ----- the cache -----

  class Cache<V> {
    var entries: map<string, Stored<V>>
    /** Everything that was ever stored, in order. */
    ghost var log: seq<Put<V>>

    /** Bounded, and every entry is the last value stored under its key. */
    ghost predicate Valid()
      reads this
    {
      && |entries| <= 500
      && forall k :: k in entries ==> LastPut(log, k) == Some(entries[k])
    }

    constructor ()
      ensures Valid() && entries == map[] && log == []
    {
      entries, log := map[], [];
    }

    /** A hit is the most recent value stored under the key, and younger than its time to live. */
    method CacheGet(key: string, ttl: int, now: int) returns (hit: Option<V>)
      requires Valid()
      ensures hit.Some? <==> key in entries && now - entries[key].at < ttl
      ensures match (hit, LastPut(log, key))
        case (Some(v), Some(last)) => v == last.value && now - last.at < ttl
        case (Some(_), None) => false
        case _ => true
    {
      if key !in entries || now - entries[key].at >= ttl { return None; }
      hit := Some(entries[key].value);
    }

    /** Drop the oldest half of a full cache. */
    method Evict() returns (ghost gone: set<string>)
      requires Valid()
      modifies this`entries
      ensures Valid()
      ensures if |old(entries)| < 500 then gone == {} else Oldest(old(entries), gone, 250)
      ensures entries == old(entries) - gone && |entries| < 500
    {
      gone := {};
      if |entries| < CACHE_MAX_KEYS { return; }
      var oldest := OldestKeys(entries, CACHE_MAX_KEYS / 2);
      gone := KeysOf(oldest);
      SizeAfterRemoval(entries, gone);
      RemoveAll(oldest);
    }

    method RemoveAll(list: seq<Aged>)
      modifies this`entries
      ensures entries == old(entries) - KeysOf(list)
    {
      for i := 0 to |list|
        invariant entries == old(entries) - KeysOf(list[..i])
      {
        assert list[..i + 1] == list[..i] + [list[i]];
        assert KeysOf(list[..i + 1]) == KeysOf(list[..i]) + {list[i].key};
        entries := entries - {list[i].key};
      }
      assert list[..|list|] == list;
    }

    /** Store a value; nothing but the oldest half is ever dropped, and only from a full cache. */
    method CachePut(key: string, value: V, now: int) returns (ghost gone: set<string>)
      requires Valid()
      modifies this
      ensures Valid() && log == old(log) + [Put(key, Stored(now, value))]
      ensures if |old(entries)| < 500 then gone == {} else Oldest(old(entries), gone, 250)
      ensures entries == (old(entries) - gone)[key := Stored(now, value)]
    {
      gone := Evict();
      LastPutSnoc(log, Put(key, Stored(now, value)));
      entries := entries[key := Stored(now, value)];
      log := log + [Put(key, Stored(now, value))];
    }

    /** Serve from the cache inside the time to live, else compute, store and serve; a failed computation is
        not stored. */
    method Cached(key: string, ttl: int, now: int, fill: Option<V>, later: int)
      returns (served: Option<V>, ghost gone: set<string>)
      requires Valid()
      modifies this
      ensures Valid()
      ensures key in old(entries) && now - old(entries)[key].at < ttl ==>
        served == Some(old(entries)[key].value) && entries == old(entries) && log == old(log)
      ensures !(key in old(entries) && now - old(entries)[key].at < ttl) ==>
        && served == fill
        && (fill.None? ==> entries == old(entries) && log == old(log))
        && (fill.Some? ==> log == old(log) + [Put(key, Stored(later, fill.value))])
        && (fill.Some? ==> entries == (old(entries) - gone)[key := Stored(later, fill.value)])
      ensures gone == {} || Oldest(old(entries), gone, 250)
      ensures |old(entries)| < 500 ==> gone == {}
    {
      gone := {};
      served := CacheGet(key, ttl, now);
      if served.Some? || fill.None? { return; }
      gone := CachePut(key, fill.value, later);
      served := fill;
    }
  }

  lemma SizeAfterRemoval<V>(m: map<string, Stored<V>>, gone: set<string>)
    requires gone <= m.Keys
    ensures |m - gone| == |m| - |gone|
  {
    assert (m - gone).Keys == m.Keys - gone;
    assert |m.Keys - gone| == |m.Keys| - |gone|;
  }
}
