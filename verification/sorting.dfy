/**
  Stable sorting, as Array.prototype.sort performs it with a comparator.

  Every comparator in the scripts is a difference of numbers (`a.slots.length - b.slots.length`,
  then `b.contribution - a.contribution`, ...). Such a comparator is captured by a key of two
  integers compared lexicographically: element a goes before element b exactly when
  key(a) is lexicographically smaller than key(b), and elements with equal keys keep their
  original order (the sort is stable).
 */
module Sorting {

  type Key = (int, int)

  /** Strictly before in the lexicographic order of keys. */
  predicate Before(a: Key, b: Key) {
    a.0 < b.0 || (a.0 == b.0 && a.1 < b.1)
  }

  /** Non-decreasing by key. */
  ghost predicate Sorted<T>(s: seq<T>, key: T -> Key) {
    forall i, j :: 0 <= i < j < |s| ==> !Before(key(s[j]), key(s[i]))
  }

  /** The elements with key k, in their order of appearance. */
  function Class<T>(s: seq<T>, key: T -> Key, k: Key): (r: seq<T>)
    ensures |r| <= |s|
  {
    if s == [] then [] else (if key(s[0]) == k then [s[0]] else []) + Class(s[1..], key, k)
  }

  /** No two elements agree on f. */
  ghost predicate DistinctBy<T, U>(s: seq<T>, f: T -> U) {
    forall i, j :: 0 <= i < j < |s| ==> f(s[i]) != f(s[j])
  }

  /** Inserts x before the first element whose key is strictly after x's key. */
  function Insert<T>(sorted: seq<T>, x: T, key: T -> Key): (r: seq<T>)
  {
    if sorted == [] || Before(key(x), key(sorted[0])) then [x] + sorted
    else [sorted[0]] + Insert(sorted[1..], x, key)
  }

  /** Insertion sort: the specification of a stable sort by key. */
  function SortBy<T>(s: seq<T>, key: T -> Key): (r: seq<T>)
  {
    if s == [] then [] else Insert(SortBy(s[..|s| - 1], key), s[|s| - 1], key)
  }

  /** Sorts s by key, stably: insertion sort, each new element is placed after every element
      whose key is not after its own. */
  method StableSort<T>(s: seq<T>, key: T -> Key) returns (r: seq<T>)
    ensures r == SortBy(s, key)
  {
    r := [];
    for i := 0 to |s|
      invariant r == SortBy(s[..i], key)
    {
      assert s[..i + 1][..i] == s[..i];
      r := InsertAt(r, s[i], key);
    }
    assert s[..|s|] == s;
  }

  /** One insertion step: scans for the first element whose key is strictly after x's. */
  method InsertAt<T>(sorted: seq<T>, x: T, key: T -> Key) returns (r: seq<T>)
    ensures r == Insert(sorted, x, key)
  {
    var j := 0;
    while j < |sorted| && !Before(key(x), key(sorted[j]))
      invariant 0 <= j <= |sorted|
      invariant Insert(sorted, x, key) == sorted[..j] + Insert(sorted[j..], x, key)
    {
      var rest := sorted[j..];
      assert rest[0] == sorted[j] && rest[1..] == sorted[j + 1..];
      assert Insert(rest, x, key) == [sorted[j]] + Insert(sorted[j + 1..], x, key);
      assert sorted[..j + 1] == sorted[..j] + [sorted[j]];
      j := j + 1;
    }
    assert Insert(sorted[j..], x, key) == [x] + sorted[j..];
    r := sorted[..j] + [x] + sorted[j..];
  }

  lemma {:induction false} InsertElements<T>(sorted: seq<T>, x: T, key: T -> Key)
    ensures multiset(Insert(sorted, x, key)) == multiset(sorted) + multiset{x}
    decreases |sorted|
  {
    if sorted != [] && !Before(key(x), key(sorted[0])) {
      InsertElements(sorted[1..], x, key);
      assert sorted == [sorted[0]] + sorted[1..];
    }
  }

  /** Sorting permutes. */
  lemma {:induction false} SortByPermutes<T>(s: seq<T>, key: T -> Key)
    ensures multiset(SortBy(s, key)) == multiset(s)
    decreases |s|
  {
    if s != [] {
      SortByPermutes(s[..|s| - 1], key);
      InsertElements(SortBy(s[..|s| - 1], key), s[|s| - 1], key);
      assert s == s[..|s| - 1] + [s[|s| - 1]];
    }
  }

  lemma {:induction false} InsertSorted<T>(sorted: seq<T>, x: T, key: T -> Key)
    requires Sorted(sorted, key)
    ensures Sorted(Insert(sorted, x, key), key)
    decreases |sorted|
  {
    if sorted != [] && !Before(key(x), key(sorted[0])) {
      var tail := Insert(sorted[1..], x, key);
      InsertSorted(sorted[1..], x, key);
      InsertElements(sorted[1..], x, key);
      forall j | 0 <= j < |tail|
        ensures !Before(key(tail[j]), key(sorted[0]))
      {
        assert tail[j] in multiset(tail);
        if tail[j] != x {
          assert tail[j] in multiset(sorted[1..]);
          var m :| 0 <= m < |sorted[1..]| && sorted[1..][m] == tail[j];
          assert sorted[m + 1] == tail[j];
        }
      }
    }
  }

  /** Sorting orders by key. */
  lemma {:induction false} SortBySorted<T>(s: seq<T>, key: T -> Key)
    ensures Sorted(SortBy(s, key), key)
    decreases |s|
  {
    if s != [] {
      SortBySorted(s[..|s| - 1], key);
      InsertSorted(SortBy(s[..|s| - 1], key), s[|s| - 1], key);
    }
  }

  lemma {:induction false} ClassAppend<T>(a: seq<T>, b: seq<T>, key: T -> Key, k: Key)
    ensures Class(a + b, key, k) == Class(a, key, k) + Class(b, key, k)
    decreases |a|
  {
    if a != [] {
      ClassAppend(a[1..], b, key, k);
      assert (a + b)[1..] == a[1..] + b;
    } else {
      assert a + b == b;
    }
  }

  lemma {:induction false} ClassOfLater<T>(s: seq<T>, key: T -> Key, k: Key)
    requires forall i :: 0 <= i < |s| ==> Before(k, key(s[i]))
    ensures Class(s, key, k) == []
    decreases |s|
  {
    if s != [] {
      ClassOfLater(s[1..], key, k);
    }
  }

  lemma {:induction false} InsertClass<T>(sorted: seq<T>, x: T, key: T -> Key, k: Key)
    requires Sorted(sorted, key)
    ensures Class(Insert(sorted, x, key), key, k)
         == Class(sorted, key, k) + (if key(x) == k then [x] else [])
    decreases |sorted|
  {
    if sorted == [] {
    } else if Before(key(x), key(sorted[0])) {
      if key(x) == k {
        forall i | 0 <= i < |sorted|
          ensures Before(k, key(sorted[i]))
        {
          if i > 0 {
            assert !Before(key(sorted[i]), key(sorted[0]));
          }
        }
        ClassOfLater(sorted, key, k);
      }
      var r := [x] + sorted;
      assert r[0] == x && r[1..] == sorted;
    } else {
      var tail := Insert(sorted[1..], x, key);
      assert Sorted(sorted[1..], key) by {
        forall i, j | 0 <= i < j < |sorted| - 1
          ensures !Before(key(sorted[1..][j]), key(sorted[1..][i]))
        {
          assert sorted[1..][j] == sorted[j + 1] && sorted[1..][i] == sorted[i + 1];
        }
      }
      InsertClass(sorted[1..], x, key, k);
      var r := [sorted[0]] + tail;
      assert r[0] == sorted[0] && r[1..] == tail;
    }
  }

  /** Sorting is stable: within each key class the original order is kept. */
  lemma {:induction false} SortByStable<T>(s: seq<T>, key: T -> Key, k: Key)
    ensures Class(SortBy(s, key), key, k) == Class(s, key, k)
    decreases |s|
  {
    if s != [] {
      var init, last := s[..|s| - 1], s[|s| - 1];
      SortByStable(init, key, k);
      SortBySorted(init, key);
      InsertClass(SortBy(init, key), last, key, k);
      ClassAppend(init, [last], key, k);
      assert s == init + [last];
    }
  }

  lemma {:induction false} InsertDistinct<T, U>(sorted: seq<T>, x: T, key: T -> Key, f: T -> U)
    requires DistinctBy(sorted, f)
    requires forall i :: 0 <= i < |sorted| ==> f(sorted[i]) != f(x)
    ensures DistinctBy(Insert(sorted, x, key), f)
    decreases |sorted|
  {
    if sorted != [] && !Before(key(x), key(sorted[0])) {
      var tail := Insert(sorted[1..], x, key);
      InsertDistinct(sorted[1..], x, key, f);
      InsertElements(sorted[1..], x, key);
      forall j | 0 <= j < |tail|
        ensures f(tail[j]) != f(sorted[0])
      {
        assert tail[j] in multiset(tail);
        if tail[j] != x {
          assert tail[j] in multiset(sorted[1..]);
          var m :| 0 <= m < |sorted[1..]| && sorted[1..][m] == tail[j];
          assert sorted[m + 1] == tail[j];
        }
      }
    }
  }

  /** Sorting keeps elements that differ on f apart. */
  lemma {:induction false} SortByDistinct<T, U>(s: seq<T>, key: T -> Key, f: T -> U)
    requires DistinctBy(s, f)
    ensures DistinctBy(SortBy(s, key), f)
    decreases |s|
  {
    if s != [] {
      var init, last := s[..|s| - 1], s[|s| - 1];
      var sorted := SortBy(init, key);
      SortByDistinct(init, key, f);
      SortByPermutes(init, key);
      forall i | 0 <= i < |sorted|
        ensures f(sorted[i]) != f(last)
      {
        assert sorted[i] in multiset(init);
        var m :| 0 <= m < |init| && init[m] == sorted[i];
      }
      InsertDistinct(sorted, last, key, f);
    }
  }
}
