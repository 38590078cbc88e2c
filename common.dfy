/**
 * Generic helpers over finite tables: the optional and failure-carrying
 * results of the library calls, and the selections, orderings and
 * de-duplications that pandas performs on a column or a row sequence.
 */
module Common {

  datatype Option<T> = None | Some(value: T)

  datatype Result<T, E> = Success(value: T) | Failure(error: E)

  // ---------------------------------------------------------------------
  // Selection (boolean masks, dropna) as an order-preserving filter
  // ---------------------------------------------------------------------

  /** The elements of `s` satisfying `p`, in their original order. */
  function Filter<T>(s: seq<T>, p: T -> bool): (r: seq<T>)
    ensures |r| <= |s|
    ensures forall x :: x in r ==> x in s && p(x)
    ensures forall x :: x in s && p(x) ==> x in r
    ensures forall k :: 0 <= k < |r| ==> p(r[k])
    decreases |s|
  {
    if s == [] then []
    else (if p(s[0]) then [s[0]] else []) + Filter(s[1..], p)
  }

  /** `a` occurs in `b` in the same relative order (greedy matching). */
  predicate IsSubsequence<T(==)>(a: seq<T>, b: seq<T>)
    decreases |b|
  {
    if a == [] then true
    else if b == [] then false
    else if a[0] == b[0] then IsSubsequence(a[1..], b[1..])
    else IsSubsequence(a, b[1..])
  }

  lemma {:induction false} FilterIsSubsequence<T>(s: seq<T>, p: T -> bool)
    ensures IsSubsequence(Filter(s, p), s)
    decreases |s|
  {
    if s != [] {
      FilterIsSubsequence(s[1..], p);
      if p(s[0]) {
        assert Filter(s, p) == [s[0]] + Filter(s[1..], p);
        assert Filter(s, p)[1..] == Filter(s[1..], p);
      } else {
        assert Filter(s, p) == Filter(s[1..], p);
      }
    }
  }

  /** A sequence is a subsequence of any extension of it. */
  lemma {:induction false} SubsequenceOfExtension<T>(a: seq<T>, b: seq<T>)
    ensures IsSubsequence(a, a + b)
    decreases |a|
  {
    if a != [] {
      assert (a + b)[0] == a[0] && (a + b)[1..] == a[1..] + b;
      SubsequenceOfExtension(a[1..], b);
    }
  }

  /** Filtering with a predicate every element already satisfies removes nothing. */
  lemma {:induction false} FilterKeepsAll<T>(s: seq<T>, p: T -> bool)
    requires forall x :: x in s ==> p(x)
    ensures Filter(s, p) == s
    decreases |s|
  {
    if s != [] {
      assert s[0] in s;
      assert forall x :: x in s[1..] ==> x in s;
      FilterKeepsAll(s[1..], p);
      assert s == [s[0]] + s[1..];
    }
  }

  /** Two predicates that agree on the elements of `s` select the same rows. */
  lemma {:induction false} FilterCongruent<T>(s: seq<T>, p: T -> bool, q: T -> bool)
    requires forall x :: x in s ==> p(x) == q(x)
    ensures Filter(s, p) == Filter(s, q)
    decreases |s|
  {
    if s != [] {
      assert s[0] in s;
      assert forall x :: x in s[1..] ==> x in s;
      FilterCongruent(s[1..], p, q);
    }
  }

  /** Two successive selections are one selection by the conjunction `pq`. */
  lemma {:induction false} FilterFilter<T>(s: seq<T>, p: T -> bool, q: T -> bool, pq: T -> bool)
    requires forall x :: pq(x) == (p(x) && q(x))
    ensures Filter(Filter(s, p), q) == Filter(s, pq)
    decreases |s|
  {
    if s != [] {
      FilterFilter(s[1..], p, q, pq);
      if p(s[0]) {
        var fp := Filter(s, p);
        assert fp == [s[0]] + Filter(s[1..], p);
        assert fp[0] == s[0] && fp[1..] == Filter(s[1..], p);
      } else {
        assert Filter(s, p) == Filter(s[1..], p);
      }
    }
  }

  /** A filter and the filter by the complementary predicate `np` split `s` without loss. */
  lemma {:induction false} FilterPartition<T>(s: seq<T>, p: T -> bool, np: T -> bool)
    requires forall x :: np(x) == !p(x)
    ensures multiset(Filter(s, p)) + multiset(Filter(s, np)) == multiset(s)
    decreases |s|
  {
    if s != [] {
      FilterPartition(s[1..], p, np);
      assert multiset(s) == multiset{s[0]} + multiset(s[1..]) by { assert s == [s[0]] + s[1..]; }
      if p(s[0]) {
        assert Filter(s, p) == [s[0]] + Filter(s[1..], p);
        assert Filter(s, np) == Filter(s[1..], np);
      } else {
        assert Filter(s, p) == Filter(s[1..], p);
        assert Filter(s, np) == [s[0]] + Filter(s[1..], np);
      }
    }
  }

  /** Selecting by either of two exclusive predicates counts the elements of both selections. */
  lemma {:induction false} FilterLengthSplit<T>(s: seq<T>, p: T -> bool, q: T -> bool, pq: T -> bool)
    requires forall x :: pq(x) == (p(x) || q(x))
    requires forall x :: !(p(x) && q(x))
    ensures |Filter(s, pq)| == |Filter(s, p)| + |Filter(s, q)|
    decreases |s|
  {
    if s != [] {
      FilterLengthSplit(s[1..], p, q, pq);
    }
  }

  /** The elements of `s` that do not occur in `removed` (a value-based anti-join). */
  function Without<T(==)>(s: seq<T>, removed: seq<T>): (r: seq<T>)
    ensures |r| <= |s|
    ensures forall x :: x in r ==> x in s && x !in removed
    ensures forall x :: x in s && x !in removed ==> x in r
  {
    Filter(s, x => x !in removed)
  }

  /** Filtering with a predicate no element satisfies leaves nothing. */
  lemma {:induction false} FilterKeepsNone<T>(s: seq<T>, p: T -> bool)
    requires forall x :: x in s ==> !p(x)
    ensures Filter(s, p) == []
    decreases |s|
  {
    if s != [] {
      assert s[0] in s;
      assert forall x :: x in s[1..] ==> x in s;
      FilterKeepsNone(s[1..], p);
    }
  }

  /** Removing every element leaves nothing. */
  lemma WithoutAll<T>(s: seq<T>)
    ensures Without(s, s) == []
  {
    FilterKeepsNone(s, x => x !in s);
  }

  /** Removing the kept elements of a filter leaves exactly the elements `np` selects. */
  lemma ComplementOfFilter<T>(s: seq<T>, p: T -> bool, np: T -> bool)
    requires forall x :: np(x) == !p(x)
    ensures Without(s, Filter(s, p)) == Filter(s, np)
  {
    FilterCongruent(s, x => x !in Filter(s, p), np);
  }

  // ---------------------------------------------------------------------
  // Ordering (sort_values) by an integer key
  // ---------------------------------------------------------------------

  predicate SortedBy<T>(s: seq<T>, key: T -> int)
  {
    forall i, j :: 0 <= i < j < |s| ==> key(s[i]) <= key(s[j])
  }

  /** A key below every element of `s` and `x` is below every element of a permutation of them. */
  lemma BoundOfPermutation<T>(t: seq<T>, x: T, s: seq<T>, key: T -> int, low: int)
    requires multiset(t) == multiset(s) + multiset{x}
    requires low <= key(x) && forall k :: 0 <= k < |s| ==> low <= key(s[k])
    ensures forall k :: 0 <= k < |t| ==> low <= key(t[k])
  {
    forall k | 0 <= k < |t| ensures low <= key(t[k]) {
      assert t[k] in multiset(t);
      if t[k] != x {
        assert t[k] in multiset(s);
        var m :| 0 <= m < |s| && s[m] == t[k];
      }
    }
  }

  /** Putting a key no greater than any in a sorted `t` in front keeps it sorted. */
  lemma SortedCons<T>(h: T, t: seq<T>, key: T -> int)
    requires SortedBy(t, key) && forall k :: 0 <= k < |t| ==> key(h) <= key(t[k])
    ensures SortedBy([h] + t, key)
  {
    var r := [h] + t;
    forall i, j | 0 <= i < j < |r| ensures key(r[i]) <= key(r[j]) {
      assert r[j] == t[j - 1];
      if i > 0 {
        assert r[i] == t[i - 1];
      }
    }
  }

  function Insert<T>(x: T, s: seq<T>, key: T -> int): (r: seq<T>)
    requires SortedBy(s, key)
    ensures SortedBy(r, key)
    ensures multiset(r) == multiset(s) + multiset{x}
    ensures |r| == |s| + 1
    decreases |s|
  {
    if s == [] || key(x) <= key(s[0]) then
      assert SortedBy([x] + s, key) by { SortedCons(x, s, key); }
      [x] + s
    else
      var t := Insert(x, s[1..], key);
      assert multiset(s) == multiset{s[0]} + multiset(s[1..]) by { assert s == [s[0]] + s[1..]; }
      assert SortedBy([s[0]] + t, key) by {
        BoundOfPermutation(t, x, s[1..], key, key(s[0]));
        SortedCons(s[0], t, key);
      }
      [s[0]] + t
  }

  /**
   * `s` reordered ascending by `key`. Elements with equal keys keep their
   * order here, which is one of the orders an unstable sort may produce;
   * the lemmas below promise only what every such sort does.
   */
  function SortBy<T>(s: seq<T>, key: T -> int): (r: seq<T>)
    ensures SortedBy(r, key)
    ensures multiset(r) == multiset(s)
    ensures |r| == |s|
    decreases |s|
  {
    if s == [] then []
    else
      assert s == [s[0]] + s[1..];
      Insert(s[0], SortBy(s[1..], key), key)
  }

  /** Ascending by `key` with no key repeated. */
  predicate StrictlySortedBy<T>(s: seq<T>, key: T -> int)
  {
    forall i, j :: 0 <= i < j < |s| ==> key(s[i]) < key(s[j])
  }

  /** Removing one element keeps a sequence ascending, and takes that element out of its multiset. */
  lemma RemoveAt<T>(b: seq<T>, m: nat, key: T -> int)
    requires m < |b| && SortedBy(b, key)
    ensures SortedBy(b[..m] + b[m + 1..], key)
    ensures multiset(b[..m] + b[m + 1..]) == multiset(b) - multiset{b[m]}
  {
    var rest := b[..m] + b[m + 1..];
    forall i, j | 0 <= i < j < |rest| ensures key(rest[i]) <= key(rest[j]) {
      var bi := if i < m then i else i + 1;
      var bj := if j < m then j else j + 1;
      assert rest[i] == b[bi] && rest[j] == b[bj];
    }
    assert b == b[..m] + [b[m]] + b[m + 1..];
  }

  /** Two ascending orderings of the same non-empty elements start with the same key. */
  lemma SortedPermutationsShareFirstKey<T>(a: seq<T>, b: seq<T>, key: T -> int)
    requires SortedBy(a, key) && SortedBy(b, key) && multiset(a) == multiset(b) && a != []
    ensures b != [] && key(a[0]) == key(b[0])
  {
    assert a[0] in multiset(b);
    var m :| 0 <= m < |b| && b[m] == a[0];
    assert b[0] in multiset(a);
    var k :| 0 <= k < |a| && a[k] == b[0];
    assert key(a[0]) <= key(a[k]);
    assert key(b[0]) <= key(b[m]);
  }

  /** Dropping the first element keeps a sequence ascending, and takes it out of the multiset. */
  lemma Tail<T>(a: seq<T>, key: T -> int)
    requires a != [] && SortedBy(a, key)
    ensures SortedBy(a[1..], key)
    ensures multiset(a[1..]) == multiset(a) - multiset{a[0]}
  {
    assert a == [a[0]] + a[1..];
  }

  /**
   * When the key of `b[0]` equals that of `b[m]`, and the tail of `a` has
   * the keys of `rest` (`b` without `b[m]`), position by position, then `a`
   * has the keys of `b`.
   */
  lemma KeysAfterRemoval<T>(a: seq<T>, b: seq<T>, m: nat, rest: seq<T>, key: T -> int)
    requires m < |b| == |a| && SortedBy(b, key) && rest == b[..m] + b[m + 1..]
    requires key(a[0]) == key(b[0]) == key(b[m])
    requires forall i :: 0 < i < |a| ==> key(a[i]) == key(rest[i - 1])
    ensures forall i :: 0 <= i < |a| ==> key(a[i]) == key(b[i])
  {
    forall i | 0 < i < |a| ensures key(a[i]) == key(b[i]) {
      assert key(a[i]) == key(rest[i - 1]);
      if i <= m {
        // the keys of `b[..m + 1]` all equal `key(b[0])`
        assert rest[i - 1] == b[i - 1];
        assert key(b[0]) <= key(b[i - 1]) && key(b[i]) <= key(b[m]);
      } else {
        assert rest[i - 1] == b[i];
      }
    }
  }

  /**
   * Two orderings of the same elements that are both ascending by `key`
   * carry the same key at every position: they differ at most in the order
   * of elements with equal keys.
   */
  lemma {:induction false} SortedPermutationsShareKeys<T>(a: seq<T>, b: seq<T>, key: T -> int)
    requires SortedBy(a, key) && SortedBy(b, key) && multiset(a) == multiset(b)
    ensures |a| == |b|
    ensures forall i :: 0 <= i < |a| ==> key(a[i]) == key(b[i])
    decreases |a|
  {
    assert |a| == |multiset(a)| == |multiset(b)| == |b|;
    if a != [] {
      SortedPermutationsShareFirstKey(a, b, key);
      assert a[0] in multiset(b);
      var m :| 0 <= m < |b| && b[m] == a[0];
      RemoveAt(b, m, key);
      Tail(a, key);
      SortedPermutationsShareKeys(a[1..], b[..m] + b[m + 1..], key);
      KeysAfterRemoval(a, b, m, b[..m] + b[m + 1..], key);
    }
  }

  /** The only ordering of the elements of a strictly ascending `s` that is ascending is `s` itself. */
  lemma SortedPermutationOfStrict<T>(s: seq<T>, r: seq<T>, key: T -> int)
    requires StrictlySortedBy(s, key) && SortedBy(r, key) && multiset(r) == multiset(s)
    ensures r == s
  {
    SortedPermutationsShareKeys(s, r, key);
    forall i | 0 <= i < |s| ensures r[i] == s[i] {
      assert r[i] in multiset(s);
      var k :| 0 <= k < |s| && s[k] == r[i];
      assert key(s[k]) == key(s[i]);
    }
  }

  /**
   * Sorting a sequence that is already in order keeps the key at every
   * position; only elements with equal keys may trade places.
   */
  lemma SortByOfSorted<T>(s: seq<T>, key: T -> int)
    requires SortedBy(s, key)
    ensures |SortBy(s, key)| == |s|
    ensures forall i :: 0 <= i < |s| ==> key(SortBy(s, key)[i]) == key(s[i])
  {
    SortedPermutationsShareKeys(s, SortBy(s, key), key);
  }

  /** Sorting a sequence whose keys are strictly ascending changes nothing. */
  lemma SortByOfStrictlySorted<T>(s: seq<T>, key: T -> int)
    requires StrictlySortedBy(s, key)
    ensures SortBy(s, key) == s
  {
    SortedPermutationOfStrict(s, SortBy(s, key), key);
  }

  lemma SortByMembers<T>(s: seq<T>, key: T -> int)
    ensures forall x :: x in SortBy(s, key) <==> x in s
  {
    var r := SortBy(s, key);
    forall x ensures x in r <==> x in s {
      assert x in r <==> x in multiset(r);
      assert x in s <==> x in multiset(s);
    }
  }

  // ---------------------------------------------------------------------
  // Distinct values in first-appearance order (Series.unique)
  // ---------------------------------------------------------------------

  predicate NoDuplicates<T(==)>(s: seq<T>)
  {
    forall i, j :: 0 <= i < j < |s| ==> s[i] != s[j]
  }

  /** No element of `a` is an element of `b`. */
  predicate Disjoint<T(==)>(a: seq<T>, b: seq<T>)
  {
    forall i, j :: 0 <= i < |a| && 0 <= j < |b| ==> a[i] != b[j]
  }

  /** Two duplicate-free sequences with no element in common concatenate to a duplicate-free one. */
  lemma NoDuplicatesAppend<T>(a: seq<T>, b: seq<T>)
    requires NoDuplicates(a) && NoDuplicates(b) && Disjoint(a, b)
    ensures NoDuplicates(a + b)
  {
    var ab := a + b;
    forall i, j | 0 <= i < j < |ab| ensures ab[i] != ab[j] {
      if j < |a| {
        assert ab[i] == a[i] && ab[j] == a[j];
      } else if i < |a| {
        assert ab[i] == a[i] && ab[j] == b[j - |a|];
      } else {
        assert ab[i] == b[i - |a|] && ab[j] == b[j - |a|];
      }
    }
  }

  /** A sequence disjoint from two others is disjoint from their concatenation. */
  lemma DisjointAppend<T>(a: seq<T>, b: seq<T>, c: seq<T>)
    requires Disjoint(a, c) && Disjoint(b, c)
    ensures Disjoint(a + b, c) && Disjoint(c, a + b)
  {
    var ab := a + b;
    forall i, j | 0 <= i < |ab| && 0 <= j < |c| ensures ab[i] != c[j] {
      if i < |a| {
        assert ab[i] == a[i];
      } else {
        assert ab[i] == b[i - |a|];
      }
    }
  }

  /** Position of the first occurrence of `x` in `s`. */
  function FirstIndex<T(==)>(s: seq<T>, x: T): (i: nat)
    requires x in s
    ensures i < |s| && s[i] == x && x !in s[..i]
    decreases |s|
  {
    if x in s[..|s| - 1] then
      var i := FirstIndex(s[..|s| - 1], x);
      assert s[..|s| - 1][..i] == s[..i];
      i
    else |s| - 1
  }

  /** The distinct values of `s`, each once, ordered by first appearance. */
  function Unique<T(==)>(s: seq<T>): (u: seq<T>)
    ensures forall x :: x in u ==> x in s
    ensures forall x :: x in s ==> x in u
    ensures NoDuplicates(u)
    ensures |u| <= |s|
    ensures forall i, j :: 0 <= i < j < |u| ==> FirstIndex(s, u[i]) < FirstIndex(s, u[j])
    decreases |s|
  {
    if s == [] then []
    else
      var init := s[..|s| - 1];
      var last := s[|s| - 1];
      var u := Unique(init);
      assert s == init + [last];
      assert forall x :: x in init ==> FirstIndex(s, x) == FirstIndex(init, x) by {
        forall x | x in init ensures FirstIndex(s, x) == FirstIndex(init, x) {
          assert s[..|s| - 1] == init;
        }
      }
      if last in u then u
      else
        assert FirstIndex(s, last) == |s| - 1;
        u + [last]
  }

  /** A non-empty sequence of one repeated value has that value as its only distinct value. */
  lemma {:induction false} UniqueOfConstant<T>(s: seq<T>, v: T)
    requires s != [] && forall x :: x in s ==> x == v
    ensures Unique(s) == [v]
    decreases |s|
  {
    var init := s[..|s| - 1];
    assert s[|s| - 1] in s;
    if init != [] {
      assert forall x :: x in init ==> x in s;
      UniqueOfConstant(init, v);
    }
  }
}
