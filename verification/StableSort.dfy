/** Sorting by a key, keeping the order of equal keys, as the built-in sort does. */
module StableSort {

  /** Keys compare lexicographically. */
  datatype Rank = Rank(major: int, minor: int)

  predicate Leq(a: Rank, b: Rank) {
    a.major < b.major || (a.major == b.major && a.minor <= b.minor)
  }

  predicate Sorted<T>(s: seq<T>, key: T -> Rank) {
    forall i, j :: 0 <= i < j < |s| ==> Leq(key(s[i]), key(s[j]))
  }

  function Insert<T>(s: seq<T>, x: T, key: T -> Rank): (r: seq<T>)
    ensures |r| == |s| + 1
  {
    if s == [] then [x]
    else if Leq(key(s[|s| - 1]), key(x)) then s + [x]
    else Insert(s[..|s| - 1], x, key) + [s[|s| - 1]]
  }

  function Sort<T>(s: seq<T>, key: T -> Rank): (r: seq<T>)
    ensures |r| == |s|
  {
    if s == [] then [] else Insert(Sort(s[..|s| - 1], key), s[|s| - 1], key)
  }

  /** The elements with the given key, in order. */
  function WithKey<T>(s: seq<T>, key: T -> Rank, k: Rank): seq<T> {
    if s == [] then []
    else WithKey(s[..|s| - 1], key, k) + if key(s[|s| - 1]) == k then [s[|s| - 1]] else []
  }

  lemma {:induction false} InsertAdds<T>(s: seq<T>, x: T, key: T -> Rank)
    ensures multiset(Insert(s, x, key)) == multiset(s) + multiset{x}
  {
    if s != [] && !Leq(key(s[|s| - 1]), key(x)) {
      var front, last := s[..|s| - 1], s[|s| - 1];
      assert s == front + [last];
      InsertAdds(front, x, key);
    }
  }

  lemma {:induction false} InsertSorts<T>(s: seq<T>, x: T, key: T -> Rank)
    requires Sorted(s, key)
    ensures Sorted(Insert(s, x, key), key)
  {
    if s != [] && !Leq(key(s[|s| - 1]), key(x)) {
      var front, last := s[..|s| - 1], s[|s| - 1];
      InsertSorts(front, x, key);
      InsertAdds(front, x, key);
      var r := Insert(front, x, key);
      FromInsert(front, x, r, |r| - 1);
      SortedAppend(r, last, key);
    } else {
      SortedAppend(s, x, key);
    }
  }

  lemma FromInsert<T>(s: seq<T>, x: T, r: seq<T>, i: nat)
    requires multiset(r) == multiset(s) + multiset{x} && i < |r|
    ensures r[i] in s || r[i] == x
  {
    assert r[i] in multiset(r);
  }

  lemma SortedAppend<T>(s: seq<T>, x: T, key: T -> Rank)
    requires Sorted(s, key) && (s != [] ==> Leq(key(s[|s| - 1]), key(x)))
    ensures Sorted(s + [x], key)
  {
    forall i | 0 <= i < |s|
      ensures Leq(key(s[i]), key(x))
    {
      assert i < |s| - 1 ==> Leq(key(s[i]), key(s[|s| - 1]));
    }
  }

  lemma {:induction false} SortSorts<T>(s: seq<T>, key: T -> Rank)
    ensures Sorted(Sort(s, key), key)
    ensures multiset(Sort(s, key)) == multiset(s)
  {
    if s != [] {
      assert s == s[..|s| - 1] + [s[|s| - 1]];
      SortSorts(s[..|s| - 1], key);
      InsertSorts(Sort(s[..|s| - 1], key), s[|s| - 1], key);
      InsertAdds(Sort(s[..|s| - 1], key), s[|s| - 1], key);
    }
  }

  lemma SameElements<T(!new)>(s: seq<T>, key: T -> Rank)
    ensures forall x :: x in Sort(s, key) <==> x in s
  {
    SortSorts(s, key);
    forall x
      ensures x in Sort(s, key) <==> x in s
    {
      assert x in multiset(Sort(s, key)) <==> x in multiset(s);
    }
  }

  lemma {:induction false} InsertIsStable<T>(s: seq<T>, x: T, key: T -> Rank, k: Rank)
    requires Sorted(s, key)
    ensures WithKey(Insert(s, x, key), key, k) == WithKey(s + [x], key, k)
  {
    assert (s + [x])[..|s|] == s;
    if s != [] && !Leq(key(s[|s| - 1]), key(x)) {
      var front, last := s[..|s| - 1], s[|s| - 1];
      InsertIsStable(front, x, key, k);
      assert (front + [x])[..|front|] == front;
      var r := Insert(front, x, key);
      assert (r + [last])[..|r|] == r;
    }
  }

  /** The sort is stable: equal keys keep their order. */
  lemma {:induction false} SortIsStable<T>(s: seq<T>, key: T -> Rank, k: Rank)
    ensures WithKey(Sort(s, key), key, k) == WithKey(s, key, k)
  {
    if s != [] {
      var front, last := s[..|s| - 1], s[|s| - 1];
      SortIsStable(front, key, k);
      SortSorts(front, key);
      InsertIsStable(Sort(front, key), last, key, k);
      assert (Sort(front, key) + [last])[..|front|] == Sort(front, key);
    }
  }

  lemma {:induction false} SortOfSorted<T>(s: seq<T>, key: T -> Rank)
    requires Sorted(s, key)
    ensures Sort(s, key) == s
  {
    if s != [] {
      var front := s[..|s| - 1];
      SortOfSorted(front, key);
      assert s == front + [s[|s| - 1]];
      if front != [] {
        assert Leq(key(front[|front| - 1]), key(s[|s| - 1]));
      }
    }
  }

  ghost predicate Distinct<T, K>(s: seq<T>, id: T -> K) {
    forall i, j :: 0 <= i < j < |s| ==> id(s[i]) != id(s[j])
  }

  lemma {:induction false} InsertKeepsDistinct<T(!new), K>(s: seq<T>, x: T, key: T -> Rank, id: T -> K)
    requires Distinct(s, id) && forall y :: y in s ==> id(y) != id(x)
    ensures Distinct(Insert(s, x, key), id)
    ensures forall y :: y in Insert(s, x, key) <==> y in s || y == x
  {
    if s != [] && !Leq(key(s[|s| - 1]), key(x)) {
      var front := s[..|s| - 1];
      assert s == front + [s[|s| - 1]];
      InsertKeepsDistinct(front, x, key, id);
      var r := Insert(front, x, key);
      forall i | 0 <= i < |r|
        ensures id(r[i]) != id(s[|s| - 1])
      {
        var y: T := r[i];
        assert y in r;
        assert y in front || y == x;
      }
    }
  }

  lemma {:induction false} SortKeepsDistinct<T(!new), K>(s: seq<T>, key: T -> Rank, id: T -> K)
    requires Distinct(s, id)
    ensures Distinct(Sort(s, key), id)
  {
    if s != [] {
      var front := s[..|s| - 1];
      SortKeepsDistinct(front, key, id);
      SameElements(front, key);
      forall y: T | y in Sort(front, key)
        ensures id(y) != id(s[|s| - 1])
      {
        assert y in front;
      }
      InsertKeepsDistinct(Sort(front, key), s[|s| - 1], key, id);
    }
  }
}
