/** The stable descending sort both allocators apply to their requirements:
    Rust's `sort_by(|a, b| key(b).cmp(&key(a)))`, which puts the largest key
    first and keeps elements with equal keys in their input order.

    It is modelled as insertion sort.  Its contract is the full
    characterisation of a stable sort: the result is a permutation of the
    input, ordered by key, and for every key the elements carrying it appear
    in their input order.
 */
module Sorting {

  /** Keys never increase from left to right. */
  predicate Descending<T>(s: seq<T>, key: T -> nat) {
    forall i, j :: 0 <= i < j < |s| ==> key(s[i]) >= key(s[j])
  }

  /** The elements whose key is `k`, in their order in `s`. */
  function WithKey<T>(s: seq<T>, key: T -> nat, k: nat): seq<T> {
    if |s| == 0 then []
    else (if key(s[0]) == k then [s[0]] else []) + WithKey(s[1..], key, k)
  }

  /** `x` goes in front of the first element whose key is smaller. */
  function Insert<T>(x: T, s: seq<T>, key: T -> nat): (r: seq<T>)
    ensures |r| == |s| + 1
    ensures multiset(r) == multiset(s) + multiset{x}
    ensures forall i :: 0 <= i < |r| ==> r[i] == x || r[i] in s
  {
    if |s| == 0 || key(x) >= key(s[0]) then [x] + s
    else
      assert s == [s[0]] + s[1..];
      [s[0]] + Insert(x, s[1..], key)
  }

  function SortDescending<T>(s: seq<T>, key: T -> nat): (r: seq<T>)
    ensures |r| == |s|
    ensures multiset(r) == multiset(s)
    ensures Descending(r, key)
  {
    if |s| == 0 then []
    else
      var rest := SortDescending(s[1..], key);
      InsertKeepsOrder(s[0], rest, key);
      HeadTailMultiset(s);
      Insert(s[0], rest, key)
  }

  lemma HeadTailMultiset<T>(s: seq<T>)
    requires |s| > 0
    ensures multiset(s) == multiset(s[1..]) + multiset{s[0]}
  {
    assert s == [s[0]] + s[1..];
  }

  lemma {:induction false} InsertKeepsOrder<T>(x: T, s: seq<T>, key: T -> nat)
    requires Descending(s, key)
    ensures Descending(Insert(x, s, key), key)
    decreases |s|
  {
    if |s| > 0 && key(x) < key(s[0]) {
      var rest := s[1..];
      DescendingTail(s, key);
      InsertKeepsOrder(x, rest, key);
      InsertAtMost(x, rest, key, key(s[0]));
      ConsDescending(s[0], Insert(x, rest, key), key);
    }
  }

  /** No key in `s` is above `b`. */
  predicate AtMost<T>(s: seq<T>, key: T -> nat, b: nat) {
    forall i :: 0 <= i < |s| ==> key(s[i]) <= b
  }

  /** Behind the first element of a sorted list, sorted and no key above the
      first one. */
  lemma DescendingTail<T>(s: seq<T>, key: T -> nat)
    requires |s| > 0 && Descending(s, key)
    ensures Descending(s[1..], key) && AtMost(s[1..], key, key(s[0]))
  {
    var rest := s[1..];
    forall i, j | 0 <= i < j < |rest|
      ensures key(rest[i]) >= key(rest[j])
    {
      assert rest[i] == s[i + 1] && rest[j] == s[j + 1];
    }
    forall i | 0 <= i < |rest|
      ensures key(rest[i]) <= key(s[0])
    {
      assert rest[i] == s[i + 1];
    }
  }

  /** Inserting an element no larger than a bound keeps the list below it. */
  lemma {:induction false} InsertAtMost<T>(x: T, s: seq<T>, key: T -> nat, b: nat)
    requires AtMost(s, key, b) && key(x) <= b
    ensures AtMost(Insert(x, s, key), key, b)
    decreases |s|
  {
    var r := Insert(x, s, key);
    if |s| > 0 && key(x) < key(s[0]) {
      var rest := s[1..];
      assert AtMost(rest, key, b) by {
        forall i | 0 <= i < |rest|
          ensures key(rest[i]) <= b
        {
          assert rest[i] == s[i + 1];
        }
      }
      InsertAtMost(x, rest, key, b);
      var tail := Insert(x, rest, key);
      forall i | 0 <= i < |r|
        ensures key(r[i]) <= b
      {
        if i > 0 {
          assert r[i] == tail[i - 1];
        }
      }
    } else {
      forall i | 0 <= i < |r|
        ensures key(r[i]) <= b
      {
        if i > 0 {
          assert r[i] == s[i - 1];
        }
      }
    }
  }

  /** A sorted list behind an element no smaller than any of its keys. */
  lemma ConsDescending<T>(x: T, t: seq<T>, key: T -> nat)
    requires Descending(t, key) && AtMost(t, key, key(x))
    ensures Descending([x] + t, key)
  {
    var r := [x] + t;
    forall i, j | 0 <= i < j < |r|
      ensures key(r[i]) >= key(r[j])
    {
      assert r[j] == t[j - 1];
      if i > 0 {
        assert r[i] == t[i - 1];
      }
    }
  }

  /** Inserting `x` into a sorted list puts it in front of every element with
      the same key. */
  lemma {:induction false} InsertWithKey<T>(x: T, s: seq<T>, key: T -> nat, k: nat)
    requires Descending(s, key)
    ensures WithKey(Insert(x, s, key), key, k) == (if key(x) == k then [x] else []) + WithKey(s, key, k)
    decreases |s|
  {
    if |s| == 0 {
      assert WithKey([x], key, k) == (if key(x) == k then [x] else []) + WithKey([x][1..], key, k);
    } else if key(x) >= key(s[0]) {
      assert ([x] + s)[1..] == s;
    } else {
      var r, t := Insert(x, s, key), Insert(x, s[1..], key);
      assert r[0] == s[0] && r[1..] == t;
      DescendingTail(s, key);
      InsertWithKey(x, s[1..], key, k);
      var a := if key(s[0]) == k then [s[0]] else [];
      var xs := if key(x) == k then [x] else [];
      assert WithKey(r, key, k) == a + WithKey(t, key, k);
      SwapEmpty(a, xs, WithKey(s[1..], key, k));
    }
  }

  /** With one of `a` and `b` empty, their order in front of `w` does not
      matter. */
  lemma SwapEmpty<T>(a: seq<T>, b: seq<T>, w: seq<T>)
    requires a == [] || b == []
    ensures a + (b + w) == b + (a + w)
  {
    if a == [] {
      assert a + (b + w) == b + w == b + (a + w);
    } else {
      assert a + (b + w) == a + w == b + (a + w);
    }
  }

  /** The sort is stable: the elements of each key keep their input order. */
  lemma {:induction false} SortIsStable<T>(s: seq<T>, key: T -> nat, k: nat)
    ensures WithKey(SortDescending(s, key), key, k) == WithKey(s, key, k)
    decreases |s|
  {
    if |s| > 0 {
      var rest := SortDescending(s[1..], key);
      SortIsStable(s[1..], key, k);
      InsertWithKey(s[0], rest, key, k);
    }
  }

  /** The elements of a key begin with the first element carrying it. */
  lemma {:induction false} WithKeyHead<T>(s: seq<T>, key: T -> nat, k: nat, j: nat)
    requires j < |s| && key(s[j]) == k
    requires forall i :: 0 <= i < j ==> key(s[i]) != k
    ensures |WithKey(s, key, k)| > 0 && WithKey(s, key, k)[0] == s[j]
    decreases j
  {
    if j > 0 {
      WithKeyHead(s[1..], key, k, j - 1);
      assert key(s[0]) != k;
    }
  }

  /** An element carrying a key has a first one before or at it. */
  lemma {:induction false} FirstWithKey<T>(s: seq<T>, key: T -> nat, j0: nat) returns (j: nat)
    requires j0 < |s|
    ensures j <= j0 && key(s[j]) == key(s[j0])
    ensures forall i :: 0 <= i < j ==> key(s[i]) != key(s[j0])
    decreases j0
  {
    if i :| 0 <= i < j0 && key(s[i]) == key(s[j0]) {
      j := FirstWithKey(s, key, i);
    } else {
      j := j0;
    }
  }

  /** The element sorted to the front is the first one, in input order,
      carrying the largest key. */
  lemma SortedFirst<T>(s: seq<T>, key: T -> nat) returns (j: nat)
    requires |s| > 0
    ensures j < |s| && SortDescending(s, key)[0] == s[j]
    ensures AtMost(s, key, key(s[j]))
    ensures forall i :: 0 <= i < j ==> key(s[i]) < key(s[j])
  {
    var sorted := SortDescending(s, key);
    assert sorted[0] in multiset(s);
    var j0 :| 0 <= j0 < |s| && s[j0] == sorted[0];
    j := FirstWithKey(s, key, j0);
    var k := key(sorted[0]);
    forall i | 0 <= i < |s|
      ensures key(s[i]) <= k
    {
      assert s[i] in multiset(sorted);
      var m :| 0 <= m < |sorted| && sorted[m] == s[i];
      if m > 0 {
        assert key(sorted[0]) >= key(sorted[m]);
      }
    }
    WithKeyHead(s, key, k, j);
    WithKeyHead(sorted, key, k, 0);
    SortIsStable(s, key, k);
  }
}
