/** The stable sort by a numeric key that the viewer obtains from `Array.prototype.sort`
    with a comparator `(a, b) => key(a) - key(b)`: pauses by start time, insertion
    offsets by value, and timestamp entries by their first occurrence in the text. */
module Sorting {

  predicate SortedBy<T>(s: seq<T>, key: T -> real)
  {
    forall i, j :: 0 <= i < j < |s| ==> key(s[i]) <= key(s[j])
  }

  /** Places `x` after every element whose key is not greater than its own. */
  function Insert<T>(x: T, s: seq<T>, key: T -> real): seq<T>
  {
    if s == [] then [x]
    else if key(x) < key(s[0]) then [x] + s
    else [s[0]] + Insert(x, s[1..], key)
  }

  /** The library sort, which is stable. */
  function SortByKey<T>(xs: seq<T>, key: T -> real): seq<T>
  {
    if xs == [] then []
    else Insert(xs[|xs| - 1], SortByKey(xs[..|xs| - 1], key), key)
  }

  /** The elements whose key equals `k`, in order. */
  function WithKey<T>(s: seq<T>, key: T -> real, k: real): seq<T>
  {
    if s == [] then []
    else (if key(s[0]) == k then [s[0]] else []) + WithKey(s[1..], key, k)
  }

  lemma {:induction false} InsertBound<T>(x: T, s: seq<T>, key: T -> real, b: real)
    requires forall i :: 0 <= i < |s| ==> key(s[i]) >= b
    requires key(x) >= b
    ensures forall i :: 0 <= i < |Insert(x, s, key)| ==> key(Insert(x, s, key)[i]) >= b
  {
    if s != [] && key(x) >= key(s[0]) {
      InsertBound(x, s[1..], key, b);
    }
  }

  lemma {:induction false} InsertSorted<T>(x: T, s: seq<T>, key: T -> real)
    requires SortedBy(s, key)
    ensures SortedBy(Insert(x, s, key), key)
  {
    if s != [] && key(x) >= key(s[0]) {
      InsertSorted(x, s[1..], key);
      InsertBound(x, s[1..], key, key(s[0]));
    }
  }

  lemma {:induction false} InsertPermutation<T>(x: T, s: seq<T>, key: T -> real)
    ensures multiset(Insert(x, s, key)) == multiset(s) + multiset{x}
  {
    if s != [] && key(x) >= key(s[0]) {
      InsertPermutation(x, s[1..], key);
      assert s == [s[0]] + s[1..];
    }
  }

  /** The result is ordered by key. */
  lemma {:induction false} SortSorted<T>(xs: seq<T>, key: T -> real)
    ensures SortedBy(SortByKey(xs, key), key)
  {
    if xs != [] {
      SortSorted(xs[..|xs| - 1], key);
      InsertSorted(xs[|xs| - 1], SortByKey(xs[..|xs| - 1], key), key);
    }
  }

  /** The result is a permutation of the input. */
  lemma {:induction false} SortPermutation<T>(xs: seq<T>, key: T -> real)
    ensures multiset(SortByKey(xs, key)) == multiset(xs)
  {
    if xs != [] {
      var init := xs[..|xs| - 1];
      SortPermutation(init, key);
      InsertPermutation(xs[|xs| - 1], SortByKey(init, key), key);
      assert xs == init + [xs[|xs| - 1]];
    }
  }

  lemma {:induction false} WithKeyAbove<T>(s: seq<T>, key: T -> real, k: real)
    requires forall i :: 0 <= i < |s| ==> key(s[i]) > k
    ensures WithKey(s, key, k) == []
  {
    if s != [] {
      WithKeyAbove(s[1..], key, k);
    }
  }

  lemma WithKeyCons<T>(x: T, s: seq<T>, key: T -> real, k: real)
    ensures WithKey([x] + s, key, k) == (if key(x) == k then [x] else []) + WithKey(s, key, k)
  {
    assert ([x] + s)[1..] == s;
  }

  lemma {:induction false} WithKeyInsert<T>(x: T, s: seq<T>, key: T -> real, k: real)
    requires SortedBy(s, key)
    ensures WithKey(Insert(x, s, key), key, k) == WithKey(s, key, k) + (if key(x) == k then [x] else [])
  {
    if s == [] {
      WithKeyCons(x, [], key, k);
    } else if key(x) < key(s[0]) {
      WithKeyCons(x, s, key, k);
      if key(x) == k {
        WithKeyAbove(s, key, k);
      }
    } else {
      var head, tail := s[0], s[1..];
      var here := if key(head) == k then [head] else [];
      var added := if key(x) == k then [x] else [];
      assert s == [head] + tail;
      WithKeyInsert(x, tail, key, k);
      WithKeyCons(head, Insert(x, tail, key), key, k);
      WithKeyCons(head, tail, key, k);
      assert here + (WithKey(tail, key, k) + added) == (here + WithKey(tail, key, k)) + added;
    }
  }

  lemma {:induction false} WithKeySnoc<T>(s: seq<T>, x: T, key: T -> real, k: real)
    ensures WithKey(s + [x], key, k) == WithKey(s, key, k) + (if key(x) == k then [x] else [])
  {
    if s != [] {
      WithKeySnoc(s[1..], x, key, k);
      assert (s + [x])[1..] == s[1..] + [x];
    }
  }

  /** Stability: the elements sharing a key keep their relative order. */
  lemma {:induction false} SortStable<T>(xs: seq<T>, key: T -> real, k: real)
    ensures WithKey(SortByKey(xs, key), key, k) == WithKey(xs, key, k)
  {
    if xs != [] {
      var init := xs[..|xs| - 1];
      var x := xs[|xs| - 1];
      SortStable(init, key, k);
      SortSorted(init, key);
      WithKeyInsert(x, SortByKey(init, key), key, k);
      WithKeySnoc(init, x, key, k);
      assert xs == init + [x];
    }
  }

  lemma {:induction false} InsertAtEnd<T>(x: T, s: seq<T>, key: T -> real)
    requires forall i :: 0 <= i < |s| ==> key(s[i]) <= key(x)
    ensures Insert(x, s, key) == s + [x]
  {
    if s != [] {
      InsertAtEnd(x, s[1..], key);
      assert s == [s[0]] + s[1..];
    }
  }

  /** An input already in key order comes back unchanged. */
  lemma {:induction false} SortOfSorted<T>(xs: seq<T>, key: T -> real)
    requires SortedBy(xs, key)
    ensures SortByKey(xs, key) == xs
  {
    if xs != [] {
      var init := xs[..|xs| - 1];
      SortOfSorted(init, key);
      InsertAtEnd(xs[|xs| - 1], init, key);
      assert xs == init + [xs[|xs| - 1]];
    }
  }

  predicate Unique<T(==)>(s: seq<T>)
  {
    forall i, j :: 0 <= i < j < |s| ==> s[i] != s[j]
  }

  lemma {:induction false} UniqueCount<T>(s: seq<T>, x: T)
    requires Unique(s)
    ensures multiset(s)[x] <= 1
  {
    if s != [] {
      var init := s[..|s| - 1];
      UniqueCount(init, x);
      assert s == init + [s[|s| - 1]];
      assert s[|s| - 1] == x ==> x !in init;
    }
  }

  lemma RepeatedCount<T>(s: seq<T>, i: nat, j: nat)
    requires i < j < |s| && s[i] == s[j]
    ensures multiset(s)[s[i]] >= 2
  {
    assert s == s[..i] + [s[i]] + s[i + 1..j] + [s[j]] + s[j + 1..];
  }

  /** A permutation of a list without repetitions has none either. */
  lemma UniquePermutation<T>(a: seq<T>, b: seq<T>)
    requires Unique(a) && multiset(a) == multiset(b)
    ensures Unique(b)
  {
    forall i, j | 0 <= i < j < |b| ensures b[i] != b[j] {
      if b[i] == b[j] {
        RepeatedCount(b, i, j);
        UniqueCount(a, b[i]);
      }
    }
  }

  lemma SortLength<T>(xs: seq<T>, key: T -> real)
    ensures |SortByKey(xs, key)| == |xs|
  {
    SortPermutation(xs, key);
    assert |SortByKey(xs, key)| == |multiset(SortByKey(xs, key))| == |multiset(xs)| == |xs|;
  }
}
