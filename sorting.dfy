/**
 * Python's `list.sort(key=...)` / `sorted(..., key=...)` on an integer key:
 * a stable sort. It is written as an insertion sort, and three properties
 * define it: the result is ordered by the key, it is a permutation of the
 * input, and elements with equal keys keep their relative order.
 */
module Sorting {

  /** Ordered by `key`, smallest first. */
  ghost predicate SortedBy<T>(s: seq<T>, key: T -> int) {
    forall i, j :: 0 <= i < j < |s| ==> key(s[i]) <= key(s[j])
  }

  /** The elements of `s` whose key is `v`, in their order in `s`. */
  function KeyClass<T>(s: seq<T>, key: T -> int, v: int): seq<T> {
    if s == [] then []
    else (if key(s[0]) == v then [s[0]] else []) + KeyClass(s[1..], key, v)
  }

  /** Inserts `x` in front of the first element whose key is not smaller than its own. */
  function InsertBy<T>(x: T, s: seq<T>, key: T -> int): (r: seq<T>)
    ensures |r| == |s| + 1
    ensures multiset(r) == multiset(s) + multiset{x}
    ensures r[0] == x || (s != [] && r[0] == s[0])
  {
    if s == [] || key(x) <= key(s[0]) then [x] + s
    else
      assert s == [s[0]] + s[1..];
      [s[0]] + InsertBy(x, s[1..], key)
  }

  lemma {:induction false} InsertBySorted<T>(x: T, s: seq<T>, key: T -> int)
    requires SortedBy(s, key)
    ensures SortedBy(InsertBy(x, s, key), key)
  {
    if s != [] && key(x) > key(s[0]) {
      var t := InsertBy(x, s[1..], key);
      InsertBySorted(x, s[1..], key);
      assert key(s[0]) <= key(t[0]);
      var r := [s[0]] + t;
      forall i, j | 0 <= i < j < |r|
        ensures key(r[i]) <= key(r[j])
      {
        if i == 0 && j > 1 {
          assert key(t[0]) <= key(t[j - 1]);
        }
      }
    }
  }

  /** `sorted(s, key=key)`. */
  function SortBy<T>(s: seq<T>, key: T -> int): (r: seq<T>)
    ensures |r| == |s|
    ensures multiset(r) == multiset(s)
    ensures SortedBy(r, key)
  {
    if s == [] then []
    else
      assert s == [s[0]] + s[1..];
      InsertBySorted(s[0], SortBy(s[1..], key), key);
      InsertBy(s[0], SortBy(s[1..], key), key)
  }

  /** Inserting into a sorted sequence puts `x` ahead of every element with the same key. */
  lemma {:induction false} InsertByKeyClass<T>(x: T, s: seq<T>, key: T -> int, v: int)
    requires SortedBy(s, key)
    ensures KeyClass(InsertBy(x, s, key), key, v) ==
            (if key(x) == v then [x] else []) + KeyClass(s, key, v)
  {
    var r := InsertBy(x, s, key);
    if s == [] || key(x) <= key(s[0]) {
      assert r[1..] == s;
    } else {
      var tail := s[1..];
      assert SortedBy(tail, key) by {
        forall i, j | 0 <= i < j < |tail| ensures key(tail[i]) <= key(tail[j]) {
          assert tail[i] == s[i + 1] && tail[j] == s[j + 1];
        }
      }
      InsertByKeyClass(x, tail, key, v);
      var t := InsertBy(x, tail, key);
      assert r == [s[0]] + t && r[1..] == t;
      var head: seq<T> := if key(s[0]) == v then [s[0]] else [];
      var xs: seq<T> := if key(x) == v then [x] else [];
      assert KeyClass(r, key, v) == head + KeyClass(t, key, v);
      assert KeyClass(s, key, v) == head + KeyClass(tail, key, v);
      if key(x) == v {
        assert head == [];
      } else {
        assert xs == [];
      }
    }
  }

  /** Stability: for every key value, the elements carrying it keep their input order. */
  lemma {:induction false} SortByStable<T>(s: seq<T>, key: T -> int, v: int)
    ensures KeyClass(SortBy(s, key), key, v) == KeyClass(s, key, v)
  {
    if s != [] {
      SortByStable(s[1..], key, v);
      InsertByKeyClass(s[0], SortBy(s[1..], key), key, v);
    }
  }

  /** In a sorted sequence every element of a suffix has a key at least that of every element before it. */
  lemma SortedSplit<T>(s: seq<T>, key: T -> int, n: nat)
    requires SortedBy(s, key) && n <= |s|
    ensures forall x, y :: x in s[..n] && y in s[n..] ==> key(x) <= key(y)
  {
    forall x, y | x in s[..n] && y in s[n..]
      ensures key(x) <= key(y)
    {
      var i :| 0 <= i < n && s[..n][i] == x;
      var j :| 0 <= j < |s| - n && s[n..][j] == y;
      assert s[i] == x && s[n + j] == y;
    }
  }
}
