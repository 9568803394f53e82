/** A stable sort by a descending integer key: the behaviour of
    JavaScript's `Array.prototype.sort` (stable since ECMAScript 2019) with the
    comparator `(a, b) => key(b) - key(a)`. Elements with a larger key come
    first, and elements with equal keys keep their original order. */
module Sorting {

  predicate SortedDesc<T>(s: seq<T>, key: T -> int)
  {
    forall i, j :: 0 <= i < j < |s| ==> key(s[i]) >= key(s[j])
  }

  /** The elements whose key is `k`, in their order in `s`. */
  function WithKey<T>(s: seq<T>, key: T -> int, k: int): (r: seq<T>)
    ensures |r| <= |s|
  {
    if |s| == 0 then []
    else (if key(s[0]) == k then [s[0]] else []) + WithKey(s[1..], key, k)
  }

  lemma {:induction false} WithKeyAppend<T>(a: seq<T>, b: seq<T>, key: T -> int, k: int)
    ensures WithKey(a + b, key, k) == WithKey(a, key, k) + WithKey(b, key, k)
    decreases |a|
  {
    if |a| > 0 {
      assert (a + b)[1..] == a[1..] + b;
      WithKeyAppend(a[1..], b, key, k);
    } else {
      assert a + b == b;
    }
  }

  /** Puts `x` in front of the first element whose key is not larger. */
  function Insert<T>(x: T, t: seq<T>, key: T -> int): (r: seq<T>)
    ensures |r| == |t| + 1
    ensures multiset(r) == multiset(t) + multiset{x}
  {
    if |t| == 0 then [x]
    else if key(t[0]) <= key(x) then [x] + t
    else
      assert t == [t[0]] + t[1..];
      [t[0]] + Insert(x, t[1..], key)
  }

  /** Insertion sort, inserting each element in front of the already sorted
      later elements. */
  function SortDesc<T>(s: seq<T>, key: T -> int): (r: seq<T>)
    ensures |r| == |s|
    ensures multiset(r) == multiset(s)
  {
    if |s| == 0 then []
    else
      assert s == [s[0]] + s[1..];
      Insert(s[0], SortDesc(s[1..], key), key)
  }

  lemma {:induction false} InsertSorted<T>(x: T, t: seq<T>, key: T -> int)
    requires SortedDesc(t, key)
    ensures SortedDesc(Insert(x, t, key), key)
    ensures |t| > 0 && key(t[0]) > key(x) ==> Insert(x, t, key)[0] == t[0]
    decreases |t|
  {
    if |t| > 0 && key(t[0]) > key(x) {
      var rest := Insert(x, t[1..], key);
      assert SortedDesc(t[1..], key);
      InsertSorted(x, t[1..], key);
      assert rest[0] == x || rest[0] == t[1];
      var r := [t[0]] + rest;
      forall i, j | 0 <= i < j < |r|
        ensures key(r[i]) >= key(r[j])
      {
        if i == 0 {
          assert r[j] in multiset(t[1..]) + multiset{x};
          assert r[j] == x || r[j] in t[1..];
        }
      }
    }
  }

  /** The result is ordered by descending key. */
  lemma {:induction false} SortDescSorted<T>(s: seq<T>, key: T -> int)
    ensures SortedDesc(SortDesc(s, key), key)
    decreases |s|
  {
    if |s| > 0 {
      SortDescSorted(s[1..], key);
      InsertSorted(s[0], SortDesc(s[1..], key), key);
    }
  }

  lemma {:induction false} InsertWithKey<T>(x: T, t: seq<T>, key: T -> int, k: int)
    ensures WithKey(Insert(x, t, key), key, k) == (if key(x) == k then [x] else []) + WithKey(t, key, k)
    decreases |t|
  {
    var r := Insert(x, t, key);
    if |t| == 0 {
      assert r[1..] == [];
    } else if key(t[0]) <= key(x) {
      assert r[1..] == t;
    } else {
      assert r[1..] == Insert(x, t[1..], key);
      InsertWithKey(x, t[1..], key, k);
      assert WithKey(t, key, k) == (if key(t[0]) == k then [t[0]] else []) + WithKey(t[1..], key, k);
    }
  }

  /** Stability: the elements sharing a key appear in the result in the same
      order as in the input. */
  lemma {:induction false} SortDescStable<T>(s: seq<T>, key: T -> int, k: int)
    ensures WithKey(SortDesc(s, key), key, k) == WithKey(s, key, k)
    decreases |s|
  {
    if |s| > 0 {
      SortDescStable(s[1..], key, k);
      InsertWithKey(s[0], SortDesc(s[1..], key), key, k);
    }
  }

  /** In a sorted sequence, an element not among the first `n` has a key no
      larger than any of them. */
  lemma BelowCut<T>(s: seq<T>, key: T -> int, n: int, x: T)
    requires SortedDesc(s, key) && 0 <= n <= |s|
    requires x in s && x !in s[..n]
    ensures forall i :: 0 <= i < n ==> key(x) <= key(s[i])
  {
    assert s == s[..n] + s[n..];
    assert x in s[n..];
    var j :| 0 <= j < |s| - n && s[n..][j] == x;
    assert s[n + j] == x;
  }
}
