/**
 Orderings induced by a C-style three-way comparator `cmp(x, y)`: a negative or
 zero result lets `x` precede `y`. The sorting algorithm only ever asks whether
 `cmp(x, y) > 0`, so every statement about order is phrased through `Le`.
 */
module Ordering {

  /** `x` may precede `y`: the comparator does not report `x` as the larger. */
  predicate Le<K>(cmp: (K, K) -> int, x: K, y: K) {
    cmp(x, y) <= 0
  }

  /** The comparator induces a total preorder: any two keys are comparable and
      `Le` is transitive (a strict weak ordering in the C library's terms). */
  ghost predicate TotalPreorder<K(!new)>(cmp: (K, K) -> int) {
    && (forall x, y :: Le(cmp, x, y) || Le(cmp, y, x))
    && (forall x, y, z :: Le(cmp, x, y) && Le(cmp, y, z) ==> Le(cmp, x, z))
  }

  /** The comparator only ties equal keys. */
  ghost predicate Antisymmetric<K(!new)>(cmp: (K, K) -> int) {
    forall x, y :: Le(cmp, x, y) && Le(cmp, y, x) ==> x == y
  }

  /** A total preorder that, in addition, only ties equal keys. */
  ghost predicate TotalOrder<K(!new)>(cmp: (K, K) -> int) {
    TotalPreorder(cmp) && Antisymmetric(cmp)
  }

  /** Every pair of positions in `[lo, hi]` is in order. */
  ghost predicate SortedWithin<K>(cmp: (K, K) -> int, s: seq<K>, lo: int, hi: int) {
    forall i, j :: 0 <= lo <= i < j <= hi < |s| ==> Le(cmp, s[i], s[j])
  }

  /** The whole sequence is in order. */
  ghost predicate Sorted<K>(cmp: (K, K) -> int, s: seq<K>) {
    forall i, j :: 0 <= i < j < |s| ==> Le(cmp, s[i], s[j])
  }

  /** Boundary `k` splits `s`: every element before `k` may precede every
      element from `k` on. A sequence is sorted exactly when every boundary splits it. */
  ghost predicate SplitAt<K>(cmp: (K, K) -> int, s: seq<K>, k: int) {
    forall i, j :: 0 <= i < k <= j < |s| ==> Le(cmp, s[i], s[j])
  }

  /** A boundary between two splitting boundaries splits the whole sequence
      as soon as it splits the stretch between them. */
  lemma SplitBetween<K>(cmp: (K, K) -> int, s: seq<K>, a: int, k: int, b: int)
    requires 0 <= a <= k <= b <= |s|
    requires SplitAt(cmp, s, a) && SplitAt(cmp, s, b)
    requires forall i, j :: a <= i < k <= j < b ==> Le(cmp, s[i], s[j])
    ensures SplitAt(cmp, s, k)
  {
  }

  /** Sorting a stretch between two splitting boundaries makes every boundary
      inside that stretch split the whole sequence. */
  lemma SortedStretchSplits<K>(cmp: (K, K) -> int, s: seq<K>, lo: int, hi: int)
    requires 0 <= lo <= hi + 1 <= |s|
    requires SplitAt(cmp, s, lo) && SplitAt(cmp, s, hi + 1)
    requires SortedWithin(cmp, s, lo, hi)
    ensures forall k :: lo <= k <= hi + 1 ==> SplitAt(cmp, s, k)
  {
    forall k | lo <= k <= hi + 1
      ensures SplitAt(cmp, s, k)
    {
      SplitBetween(cmp, s, lo, k, hi + 1);
    }
  }

  /** When every boundary splits, the sequence is sorted, and in particular
      every adjacent pair is in order. */
  lemma AllSplitsSorted<K>(cmp: (K, K) -> int, s: seq<K>)
    requires forall k :: 0 <= k <= |s| ==> SplitAt(cmp, s, k)
    ensures Sorted(cmp, s)
    ensures forall i :: 0 <= i < |s| - 1 ==> cmp(s[i], s[i + 1]) <= 0
  {
    forall i, j | 0 <= i < j < |s|
      ensures Le(cmp, s[i], s[j])
    {
      assert SplitAt(cmp, s, j);
    }
  }

  /** Under an antisymmetric comparator (in particular a total order), a sorted
      arrangement of a multiset is unique: two sorted sequences with the same
      elements are equal. */
  lemma {:induction false} SortedUnique<K(!new)>(cmp: (K, K) -> int, a: seq<K>, b: seq<K>)
    requires Antisymmetric(cmp)
    requires Sorted(cmp, a) && Sorted(cmp, b)
    requires multiset(a) == multiset(b)
    ensures a == b
  {
    if |a| == 0 {
      assert |b| == |multiset(b)| == 0;
    } else {
      assert |b| == |multiset(b)| == |a|;
      SortedHeads(cmp, a, b);
      SameTails(a, b);
      SortedTail(cmp, a);
      SortedTail(cmp, b);
      SortedUnique(cmp, a[1..], b[1..]);
      assert a == [a[0]] + a[1..] && b == [b[0]] + b[1..];
    }
  }

  /** Two sorted arrangements of the same non-empty multiset start alike. */
  lemma SortedHeads<K(!new)>(cmp: (K, K) -> int, a: seq<K>, b: seq<K>)
    requires Antisymmetric(cmp)
    requires Sorted(cmp, a) && Sorted(cmp, b)
    requires |a| > 0 && multiset(a) == multiset(b)
    ensures |b| > 0 && a[0] == b[0]
  {
    assert a[0] in multiset(b);
    var j :| 0 <= j < |b| && b[j] == a[0];
    assert b[0] in multiset(a);
    var i :| 0 <= i < |a| && a[i] == b[0];
    if j > 0 && i > 0 {
      assert Le(cmp, b[0], b[j]) && Le(cmp, a[0], a[i]);
    }
  }

  /** Equal multisets with equal heads have equal tails. */
  lemma SameTails<K>(a: seq<K>, b: seq<K>)
    requires |a| > 0 && |b| > 0 && a[0] == b[0] && multiset(a) == multiset(b)
    ensures multiset(a[1..]) == multiset(b[1..])
  {
    assert a == [a[0]] + a[1..] && b == [b[0]] + b[1..];
    assert multiset(a) == multiset{a[0]} + multiset(a[1..]);
    assert multiset(b) == multiset{b[0]} + multiset(b[1..]);
    assert multiset(a[1..]) == multiset(a) - multiset{a[0]};
    assert multiset(b[1..]) == multiset(b) - multiset{b[0]};
  }

  lemma SortedTail<K>(cmp: (K, K) -> int, s: seq<K>)
    requires |s| > 0 && Sorted(cmp, s)
    ensures Sorted(cmp, s[1..])
  {
    forall i, j | 0 <= i < j < |s| - 1
      ensures Le(cmp, s[1..][i], s[1..][j])
    {
      assert s[1..][i] == s[i + 1] && s[1..][j] == s[j + 1];
    }
  }
}
