/**
 The insertion-sort fallback used for small sides of a partition: every
 element of the side, from its second onwards, is walked down by adjacent
 exchanges while its left neighbour inside the side compares greater.
 */
module Insertion {
  import opened Ordering
  import opened Exchange

  /** Every ordered pair of `[lo, hi]` that avoids the slot `hole` is in order. */
  ghost predicate SortedExcept<K>(cmp: (K, K) -> int, s: seq<K>, lo: int, hi: int, hole: int) {
    forall i, j :: 0 <= lo <= i < j <= hi < |s| && i != hole && j != hole ==> Le(cmp, s[i], s[j])
  }

  /** Insertion-sorts the side `[lo, hi]` (empty when `hi == lo - 1`). Every
      comparison and every exchange stays inside the side, so the pivot and
      the other side are untouched; the side ends up sorted when the
      comparator is a total preorder. */
  method InsertionSort<K(!new), P>(ex: SwapStrategy, cmp: (K, K) -> int, b: Buffers<K, P>, lo: nat, hi: int)
    returns (b': Buffers<K, P>)
    requires Fits(ex, b) && lo <= hi + 1 <= |b.primary|
    ensures PermutedWithin(ex, b, b', lo, hi)
    ensures TotalPreorder(cmp) ==> SortedWithin(cmp, b'.primary, lo, hi)
  {
    b' := b;
    PermutedWithinRefl(ex, b, lo, hi);
    var index := lo + 1;
    while index <= hi
      invariant lo + 1 <= index && (index <= hi + 1 || index == lo + 1)
      invariant PermutedWithin(ex, b, b', lo, hi)
      invariant TotalPreorder(cmp) ==> SortedWithin(cmp, b'.primary, lo, index - 1)
    {
      b' := InsertOne(ex, cmp, b, b', lo, hi, index);
      index := index + 1;
    }
  }

  /** The inner loop: walks the element at `index` down into the sorted
      prefix `[lo, index)` of the side by adjacent exchanges; nothing after
      `index` moves. */
  method InsertOne<K(!new), P>(ex: SwapStrategy, cmp: (K, K) -> int, ghost b0: Buffers<K, P>, b: Buffers<K, P>,
                                lo: nat, ghost hi: int, index: nat)
    returns (b': Buffers<K, P>)
    requires lo < index <= hi < |b.primary|
    requires PermutedWithin(ex, b0, b, lo, hi)
    requires TotalPreorder(cmp) ==> SortedWithin(cmp, b.primary, lo, index - 1)
    ensures PermutedWithin(ex, b0, b', lo, hi)
    ensures PermutedWithin(ex, b, b', lo, index)
    ensures TotalPreorder(cmp) ==> SortedWithin(cmp, b'.primary, lo, index)
  {
    b' := b;
    PermutedWithinRefl(ex, b, lo, index);
    var trail: int := index - 1;
    while trail >= lo && cmp(b'.primary[trail], b'.primary[trail + 1]) > 0
      invariant lo - 1 <= trail < index
      invariant PermutedWithin(ex, b0, b', lo, hi)
      invariant PermutedWithin(ex, b, b', lo, index)
      invariant TotalPreorder(cmp) ==> Inserting(cmp, b'.primary, lo, index, trail + 1)
      decreases trail
    {
      if TotalPreorder(cmp) {
        InsertStep(cmp, b'.primary, lo, index, trail);
      }
      PermutedWithinStep(ex, b0, b', lo, hi, trail, trail + 1);
      PermutedWithinStep(ex, b, b', lo, index, trail, trail + 1);
      b' := Apply(ex, b', trail, trail + 1);
      trail := trail - 1;
    }
    if TotalPreorder(cmp) {
      InsertDone(cmp, b'.primary, lo, index, trail);
    }
  }

  /** Mid-insertion state of `[lo, hi]`: the element in slot `hole` is being
      walked down; the others are in order, and it may precede all those
      to its right. */
  ghost predicate Inserting<K>(cmp: (K, K) -> int, s: seq<K>, lo: int, hi: int, hole: int) {
    && 0 <= lo <= hole <= hi < |s|
    && SortedExcept(cmp, s, lo, hi, hole)
    && (forall j :: hole < j <= hi ==> Le(cmp, s[hole], s[j]))
  }

  /** Exchanging the walked element with a greater left neighbour moves the hole one slot left. */
  lemma InsertStep<K(!new)>(cmp: (K, K) -> int, s: seq<K>, lo: int, hi: int, trail: int)
    requires TotalPreorder(cmp)
    requires lo <= trail && Inserting(cmp, s, lo, hi, trail + 1)
    requires cmp(s[trail], s[trail + 1]) > 0
    ensures Inserting(cmp, Swap(s, trail, trail + 1), lo, hi, trail)
  {
    var s' := Swap(s, trail, trail + 1);
    assert Le(cmp, s[trail + 1], s[trail]);
    forall i, j | lo <= i < j <= hi && i != trail && j != trail
      ensures Le(cmp, s'[i], s'[j])
    {
      if i == trail + 1 {
        assert s'[i] == s[trail] && s'[j] == s[j];
      } else if j == trail + 1 {
        assert s'[j] == s[trail] && s'[i] == s[i];
      } else {
        assert s'[i] == s[i] && s'[j] == s[j];
      }
    }
    forall j | trail < j <= hi
      ensures Le(cmp, s'[trail], s'[j])
    {
      assert s'[trail] == s[trail + 1];
    }
  }

  /** The walk stops at the left end of the side or below a neighbour that
      may precede the walked element; either way the prefix is sorted. */
  lemma InsertDone<K(!new)>(cmp: (K, K) -> int, s: seq<K>, lo: int, hi: int, trail: int)
    requires TotalPreorder(cmp)
    requires lo - 1 <= trail && Inserting(cmp, s, lo, hi, trail + 1)
    requires trail < lo || cmp(s[trail], s[trail + 1]) <= 0
    ensures SortedWithin(cmp, s, lo, hi)
  {
    forall i, j | lo <= i < j <= hi
      ensures Le(cmp, s[i], s[j])
    {
      if j == trail + 1 {
        assert trail >= lo && Le(cmp, s[trail], s[j]);
        if i < trail {
          assert Le(cmp, s[i], s[trail]);
        }
      }
    }
  }
}
