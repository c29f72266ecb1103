/** Sorting a list by a key: equal keys keep their order. */
module StableSort {

  ghost predicate SortedBy<T>(s: seq<T>, key: T -> int) {
    forall i, j :: 0 <= i < j < |s| ==> key(s[i]) <= key(s[j])
  }

  ghost predicate Distinct<T>(s: seq<T>) {
    forall i, j :: 0 <= i < j < |s| ==> s[i] != s[j]
  }

  function Insert<T>(s: seq<T>, x: T, key: T -> int): (r: seq<T>)
    ensures multiset(r) == multiset(s) + multiset{x}
  {
    if s == [] || key(s[|s| - 1]) <= key(x) then
      s + [x]
    else
      assert s == s[..|s| - 1] + [s[|s| - 1]];
      Insert(s[..|s| - 1], x, key) + [s[|s| - 1]]
  }

  lemma InsertBehind<T>(front: seq<T>, last: T, x: T, key: T -> int)
    requires key(last) > key(x)
    ensures Insert(front + [last], x, key) == Insert(front, x, key) + [last]
  {
    assert (front + [last])[..|front|] == front;
  }

  lemma SortedSnoc<T>(s: seq<T>, last: T, key: T -> int)
    requires SortedBy(s, key) && forall y :: y in s ==> key(y) <= key(last)
    ensures SortedBy(s + [last], key)
  {
  }

  lemma FrontSorted<T>(front: seq<T>, last: T, key: T -> int)
    requires SortedBy(front + [last], key)
    ensures SortedBy(front, key) && forall y :: y in front ==> key(y) <= key(last)
  {
    var s := front + [last];
    assert s[..|front|] == front;
    forall y | y in front
      ensures key(y) <= key(last)
    {
      var i :| 0 <= i < |front| && front[i] == y;
      assert s[i] == y && s[|front|] == last;
    }
  }

  lemma InsertMembers<T>(s: seq<T>, x: T, key: T -> int)
    ensures forall y :: y in Insert(s, x, key) ==> y in s || y == x
  {
    forall y | y in Insert(s, x, key)
      ensures y in s || y == x
    {
      assert y in multiset(Insert(s, x, key));
    }
  }

  lemma {:induction false} InsertSorted<T>(s: seq<T>, x: T, key: T -> int)
    requires SortedBy(s, key)
    ensures SortedBy(Insert(s, x, key), key)
  {
    if s != [] && key(s[|s| - 1]) > key(x) {
      var front, last := s[..|s| - 1], s[|s| - 1];
      hide *;
      assert s == front + [last];
      FrontSorted(front, last, key);
      InsertSorted(front, x, key);
      InsertMembers(front, x, key);
      InsertBehind(front, last, x, key);
      SortedSnoc(Insert(front, x, key), last, key);
    }
  }

  function Sort<T>(s: seq<T>, key: T -> int): (r: seq<T>)
    ensures multiset(r) == multiset(s)
  {
    if s == [] then
      []
    else
      assert s == s[..|s| - 1] + [s[|s| - 1]];
      Insert(Sort(s[..|s| - 1], key), s[|s| - 1], key)
  }

  lemma {:induction false} SortSorts<T>(s: seq<T>, key: T -> int)
    ensures SortedBy(Sort(s, key), key)
  {
    if s != [] {
      SortSorts(s[..|s| - 1], key);
      InsertSorted(Sort(s[..|s| - 1], key), s[|s| - 1], key);
    }
  }

  /** The entries with a given key. */
  function Keyed<T>(s: seq<T>, key: T -> int, k: int): seq<T> {
    if s == [] then [] else Keyed(s[..|s| - 1], key, k) + if key(s[|s| - 1]) == k then [s[|s| - 1]] else []
  }

  lemma KeyedSnoc<T>(s: seq<T>, x: T, key: T -> int, k: int)
    ensures Keyed(s + [x], key, k) == Keyed(s, key, k) + if key(x) == k then [x] else []
  {
    assert (s + [x])[..|s|] == s;
  }

  lemma {:induction false} InsertStable<T>(s: seq<T>, x: T, key: T -> int, k: int)
    ensures Keyed(Insert(s, x, key), key, k) == Keyed(s + [x], key, k)
  {
    if s != [] && key(s[|s| - 1]) > key(x) {
      var front, last := s[..|s| - 1], s[|s| - 1];
      hide *;
      assert s == front + [last];
      InsertStable(front, x, key, k);
      InsertBehind(front, last, x, key);
      KeyedSnoc(front, x, key, k);
      KeyedSnoc(front, last, key, k);
      KeyedSnoc(s, x, key, k);
      KeyedSnoc(Insert(front, x, key), last, key, k);
    }
  }

  lemma {:induction false} SortIsStable<T>(s: seq<T>, key: T -> int, k: int)
    ensures Keyed(Sort(s, key), key, k) == Keyed(s, key, k)
  {
    if s != [] {
      var front, last := s[..|s| - 1], s[|s| - 1];
      assert s == front + [last];
      SortIsStable(front, key, k);
      InsertStable(Sort(front, key), last, key, k);
      KeyedSnoc(Sort(front, key), last, key, k);
    }
  }

  lemma SortSame<T>(s: seq<T>, key: T -> int)
    ensures |Sort(s, key)| == |s|
    ensures forall i :: 0 <= i < |Sort(s, key)| ==> Sort(s, key)[i] in s
  {
    var r := Sort(s, key);
    assert |r| == |multiset(r)| == |multiset(s)|;
    forall i | 0 <= i < |r|
      ensures r[i] in s
    {
      assert r[i] in multiset(r) && r[i] in multiset(s);
    }
  }

  lemma DistinctByCount<T>(s: seq<T>, r: seq<T>)
    requires Distinct(s) && multiset(s) == multiset(r)
    ensures Distinct(r)
  {
    forall i, j | 0 <= i < j < |r|
      ensures r[i] != r[j]
    {
      if r[i] == r[j] {
        var x := r[i];
        assert r == r[..j] + r[j..];
        assert x in r[..j] && x in r[j..];
        assert multiset(s)[x] >= 2;
        OneOfEach(s, x);
      }
    }
  }

  lemma {:induction false} OneOfEach<T>(s: seq<T>, x: T)
    requires Distinct(s)
    ensures multiset(s)[x] <= 1
  {
    if s != [] {
      var front, last := s[..|s| - 1], s[|s| - 1];
      assert s == front + [last];
      assert x == last ==> x !in front;
      OneOfEach(front, x);
    }
  }
}
