/** Python's `sorted` with a key function, as used to rank bindings: an
    ascending sort that keeps elements with equal keys in their given order. */
module Ranking {
  predicate Sorted<T>(key: T -> nat, s: seq<T>)
  {
    forall i, j :: 0 <= i < j < |s| ==> key(s[i]) <= key(s[j])
  }

  /** The elements of `s` with key `k`, in their order in `s`: a sort is
      stable when it keeps every such subsequence. */
  function WithKey<T>(key: T -> nat, s: seq<T>, k: nat): seq<T>
  {
    if s == [] then []
    else (if key(s[0]) == k then [s[0]] else []) + WithKey(key, s[1..], k)
  }

  /** Insertion after every element whose key is not larger. */
  function Insert<T>(key: T -> nat, x: T, s: seq<T>): seq<T>
  {
    if s == [] then [x]
    else if key(x) < key(s[0]) then [x] + s
    else [s[0]] + Insert(key, x, s[1..])
  }

  /** Insertion sort, each element inserted after those before it. */
  function Sort<T>(key: T -> nat, s: seq<T>): seq<T>
  {
    if s == [] then []
    else Insert(key, s[|s| - 1], Sort(key, s[..|s| - 1]))
  }

  lemma {:induction false} InsertPermutes<T>(key: T -> nat, x: T, s: seq<T>)
    ensures multiset(Insert(key, x, s)) == multiset(s) + multiset{x}
    decreases |s|
  {
    if s != [] && key(x) >= key(s[0]) {
      InsertPermutes(key, x, s[1..]);
      assert s == [s[0]] + s[1..];
    }
  }

  /** The sort is a permutation. */
  lemma {:induction false} SortPermutes<T>(key: T -> nat, s: seq<T>)
    ensures multiset(Sort(key, s)) == multiset(s)
    decreases |s|
  {
    if s != [] {
      SortPermutes(key, s[..|s| - 1]);
      InsertPermutes(key, s[|s| - 1], Sort(key, s[..|s| - 1]));
      assert s == s[..|s| - 1] + [s[|s| - 1]];
    }
  }

  lemma {:induction false} InsertSorted<T>(key: T -> nat, x: T, s: seq<T>)
    requires Sorted(key, s)
    ensures Sorted(key, Insert(key, x, s))
    decreases |s|
  {
    if s != [] && key(x) >= key(s[0]) {
      var t := Insert(key, x, s[1..]);
      InsertSorted(key, x, s[1..]);
      InsertAbove(key, x, s[1..], key(s[0]));
      var r := [s[0]] + t;
      assert Insert(key, x, s) == r;
      forall i, j | 0 <= i < j < |r|
        ensures key(r[i]) <= key(r[j])
      {
        assert r[j] == t[j - 1];
        if i > 0 {
          assert r[i] == t[i - 1];
        }
      }
    }
  }

  /** Inserting an element at or above a bound into elements at or above
      it keeps every element at or above it. */
  lemma {:induction false} InsertAbove<T>(key: T -> nat, x: T, s: seq<T>, b: nat)
    requires key(x) >= b && forall i :: 0 <= i < |s| ==> key(s[i]) >= b
    ensures forall i :: 0 <= i < |Insert(key, x, s)| ==> key(Insert(key, x, s)[i]) >= b
    decreases |s|
  {
    if s != [] && key(x) >= key(s[0]) {
      InsertAbove(key, x, s[1..], b);
      var t := Insert(key, x, s[1..]);
      assert Insert(key, x, s) == [s[0]] + t;
      forall i | 0 <= i < |[s[0]] + t|
        ensures key(([s[0]] + t)[i]) >= b
      {
        if i > 0 {
          assert ([s[0]] + t)[i] == t[i - 1];
        }
      }
    }
  }

  /** The sort orders by key, ascending. */
  lemma {:induction false} SortSorted<T>(key: T -> nat, s: seq<T>)
    ensures Sorted(key, Sort(key, s))
    decreases |s|
  {
    if s != [] {
      SortSorted(key, s[..|s| - 1]);
      InsertSorted(key, s[|s| - 1], Sort(key, s[..|s| - 1]));
    }
  }

  lemma {:induction false} WithKeyAppend<T>(key: T -> nat, a: seq<T>, b: seq<T>, k: nat)
    ensures WithKey(key, a + b, k) == WithKey(key, a, k) + WithKey(key, b, k)
    decreases |a|
  {
    if a == [] {
      assert a + b == b;
    } else {
      var ab := a + b;
      var head := if key(a[0]) == k then [a[0]] else [];
      assert ab[1..] == a[1..] + b && ab[0] == a[0];
      assert WithKey(key, ab, k) == head + WithKey(key, a[1..] + b, k);
      WithKeyAppend(key, a[1..], b, k);
      assert WithKey(key, a, k) == head + WithKey(key, a[1..], k);
      assert head + (WithKey(key, a[1..], k) + WithKey(key, b, k)) ==
             (head + WithKey(key, a[1..], k)) + WithKey(key, b, k);
    }
  }

  /** Nothing in a sorted sequence has a key below its first element's. */
  lemma {:induction false} WithKeyBelow<T>(key: T -> nat, s: seq<T>, k: nat)
    requires Sorted(key, s) && s != [] && k < key(s[0])
    ensures WithKey(key, s, k) == []
    decreases |s|
  {
    if |s| > 1 {
      WithKeyBelow(key, s[1..], k);
    }
  }

  lemma {:induction false} InsertWithKey<T>(key: T -> nat, x: T, s: seq<T>, k: nat)
    requires Sorted(key, s)
    ensures WithKey(key, Insert(key, x, s), k) == WithKey(key, s, k) + (if key(x) == k then [x] else [])
    decreases |s|
  {
    if s == [] {
    } else if key(x) < key(s[0]) {
      assert ([x] + s)[1..] == s;
      if key(x) == k {
        WithKeyBelow(key, s, k);
      }
    } else {
      InsertWithKey(key, x, s[1..], k);
      assert ([s[0]] + Insert(key, x, s[1..]))[1..] == Insert(key, x, s[1..]);
    }
  }

  /** The sort keeps the elements, orders them by key and keeps the order of
      equal keys. */
  lemma SortProperties<T>(key: T -> nat, s: seq<T>)
    ensures |Sort(key, s)| == |s|
    ensures multiset(Sort(key, s)) == multiset(s)
    ensures Sorted(key, Sort(key, s))
    ensures forall k: nat :: WithKey(key, Sort(key, s), k) == WithKey(key, s, k)
  {
    SortPermutes(key, s);
    SortSorted(key, s);
    SortStable(key, s);
    assert |multiset(Sort(key, s))| == |multiset(s)|;
  }

  /** The sort is stable: it keeps the order of the elements of every key. */
  lemma {:induction false} SortStable<T>(key: T -> nat, s: seq<T>)
    ensures forall k: nat :: WithKey(key, Sort(key, s), k) == WithKey(key, s, k)
    decreases |s|
  {
    if s != [] {
      var init, last := s[..|s| - 1], s[|s| - 1];
      SortStable(key, init);
      SortSorted(key, init);
      forall k: nat
        ensures WithKey(key, Sort(key, s), k) == WithKey(key, s, k)
      {
        InsertWithKey(key, last, Sort(key, init), k);
        WithKeyAppend(key, init, [last], k);
        assert s == init + [last];
      }
    }
  }
}
