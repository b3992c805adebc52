/**
 The partition step of the quicksort: the midpoint element of an inclusive
 range becomes the pivot, is parked at the right end, every element the pivot
 compares greater than is swapped down to a store cursor, and finally the
 pivot is swapped into the store slot.
 */
module Partition {
  import opened Ordering
  import opened Exchange

  /** The pivot slot of the inclusive range `[left, right]`: its midpoint,
      rounded down. */
  function PivotIndex(left: nat, right: nat): (m: nat)
    requires left <= right
    ensures left <= m <= right
    ensures m - left == right - m || m - left + 1 == right - m
  {
    left + (right - left) / 2
  }

  /** The macro's byte arithmetic (`left + middle - middle % size`) picks the same slot: with
      `d = right - left` elements between the ends and elements of `size`
      bytes, half the byte distance rounded down to a whole element is the
      byte offset of element `d / 2`. */
  lemma PivotByteOffset(d: nat, size: nat)
    requires size > 0
    ensures var middle := (d * size) / 2; middle - middle % size == (d / 2) * size
  {
    var q, e := d / 2, d % 2;
    assert d == 2 * q + e;
    assert d * size == 2 * (q * size) + e * size;
    var middle := (d * size) / 2;
    var rest := (e * size) / 2;
    assert middle == q * size + rest;
    assert 0 <= rest < size;
    assert middle % size == rest && middle / size == q by {
      DivModUnique(middle, size, q, rest);
    }
  }

  /** Division with remainder is unique. */
  lemma DivModUnique(x: int, size: int, q: int, r: int)
    requires size > 0 && 0 <= r < size && x == q * size + r
    ensures x % size == r && x / size == q
  {
    var q', r' := x / size, x % size;
    assert (q - q') * size == r' - r;
    NonzeroMultiple(q - q', size);
  }

  /** A nonzero multiple of a positive number is at least that number away from zero. */
  lemma NonzeroMultiple(d: int, size: int)
    requires size > 0
    ensures d == 0 || d * size >= size || d * size <= -size
  {
    if d > 0 {
      PositiveMultiple(d, size);
    } else if d < 0 {
      PositiveMultiple(-d, size);
      assert d * size == -((-d) * size);
    }
  }

  lemma {:induction false} PositiveMultiple(d: int, size: int)
    requires d > 0 && size > 0
    ensures d * size >= size
    decreases d
  {
    if d > 1 {
      PositiveMultiple(d - 1, size);
      assert d * size == (d - 1) * size + size;
    }
  }

  /** Partitions `[left, right]` around its midpoint element. On return the
      pivot sits at `store`, everything the pivot compares greater than lies in
      `[left, store)`, everything else in `(store, right]`, and only slots of
      the range were exchanged. No property of the comparator is needed. */
  method Partition<K, P>(ex: SwapStrategy, cmp: (K, K) -> int, b: Buffers<K, P>, left: nat, right: nat)
    returns (b': Buffers<K, P>, store: nat)
    requires Fits(ex, b) && left <= right < |b.primary|
    ensures left <= store <= right && |b'.primary| == |b.primary|
    ensures b'.primary[store] == b.primary[PivotIndex(left, right)]
    ensures forall k :: left <= k < store ==> cmp(b'.primary[store], b'.primary[k]) > 0
    ensures forall k :: store < k <= right ==> cmp(b'.primary[store], b'.primary[k]) <= 0
    ensures PermutedWithin(ex, b, b', left, right)
  {
    var parked := ParkPivot(ex, b, left, right);
    var scanned;
    scanned, store := Scan(ex, cmp, b, parked, left, right);
    b' := PlacePivot(ex, cmp, b, scanned, left, store, right);
  }

  /** First step: the midpoint element is exchanged to the right end of the range. */
  method ParkPivot<K, P>(ex: SwapStrategy, b: Buffers<K, P>, left: nat, right: nat) returns (b': Buffers<K, P>)
    requires Fits(ex, b) && left <= right < |b.primary|
    ensures PermutedWithin(ex, b, b', left, right)
    ensures b'.primary[right] == b.primary[PivotIndex(left, right)]
  {
    b' := Apply(ex, b, PivotIndex(left, right), right);
    PermutedWithinOne(ex, b, left, right, PivotIndex(left, right), right);
  }

  /** Last step: the parked pivot is exchanged into the store slot, between
      the elements it compares greater than and the others. */
  method PlacePivot<K, P>(ex: SwapStrategy, cmp: (K, K) -> int, ghost b0: Buffers<K, P>, b: Buffers<K, P>,
                          left: nat, store: nat, right: nat)
    returns (b': Buffers<K, P>)
    requires left <= store <= right < |b.primary| && PermutedWithin(ex, b0, b, left, right)
    requires forall k :: left <= k < store ==> cmp(b.primary[right], b.primary[k]) > 0
    requires forall k :: store <= k < right ==> cmp(b.primary[right], b.primary[k]) <= 0
    ensures PermutedWithin(ex, b0, b', left, right)
    ensures b'.primary[store] == b.primary[right]
    ensures forall k :: left <= k < store ==> cmp(b'.primary[store], b'.primary[k]) > 0
    ensures forall k :: store < k <= right ==> cmp(b'.primary[store], b'.primary[k]) <= 0
  {
    PermutedWithinStep(ex, b0, b, left, right, right, store);
    b' := Apply(ex, b, right, store);
    forall k | store < k <= right
      ensures cmp(b'.primary[store], b'.primary[k]) <= 0
    {
      if k == right {
        assert b'.primary[k] == b.primary[store];
      }
    }
  }

  /** The scan of the partition loop: with the pivot parked at `right`, moves
      every element of `[left, right)` that the pivot compares greater than
      down to the store cursor, and returns the cursor. */
  method Scan<K, P>(ex: SwapStrategy, cmp: (K, K) -> int, ghost b0: Buffers<K, P>, b: Buffers<K, P>, left: nat, right: nat)
    returns (b': Buffers<K, P>, store: nat)
    requires left <= right < |b.primary| && PermutedWithin(ex, b0, b, left, right)
    ensures left <= store <= right && |b'.primary| == |b.primary|
    ensures b'.primary[right] == b.primary[right]
    ensures forall k :: left <= k < store ==> cmp(b'.primary[right], b'.primary[k]) > 0
    ensures forall k :: store <= k < right ==> cmp(b'.primary[right], b'.primary[k]) <= 0
    ensures PermutedWithin(ex, b0, b', left, right)
  {
    b' := b;
    store := left;
    var index := left;
    while index < right
      invariant left <= store <= index <= right && |b'.primary| == |b.primary|
      invariant PermutedWithin(ex, b0, b', left, right)
      invariant b'.primary[right] == b.primary[right]
      invariant forall k :: left <= k < store ==> cmp(b'.primary[right], b'.primary[k]) > 0
      invariant forall k :: store <= k < index ==> cmp(b'.primary[right], b'.primary[k]) <= 0
    {
      if cmp(b'.primary[right], b'.primary[index]) > 0 {
        PermutedWithinStep(ex, b0, b', left, right, index, store);
        ScanSwap(cmp, b'.primary, left, store, index, right);
        b' := Apply(ex, b', index, store);
        store := store + 1;
      }
      index := index + 1;
    }
  }

  /** Exchanging an element the pivot compares greater than with the first
      element of the other class grows the first class by one slot. */
  lemma ScanSwap<K>(cmp: (K, K) -> int, s: seq<K>, left: nat, store: nat, index: nat, right: nat)
    requires left <= store <= index < right < |s|
    requires forall k :: left <= k < store ==> cmp(s[right], s[k]) > 0
    requires forall k :: store <= k < index ==> cmp(s[right], s[k]) <= 0
    requires cmp(s[right], s[index]) > 0
    ensures Swap(s, index, store)[right] == s[right]
    ensures forall k :: left <= k < store + 1 ==> cmp(s[right], Swap(s, index, store)[k]) > 0
    ensures forall k :: store + 1 <= k < index + 1 ==> cmp(s[right], Swap(s, index, store)[k]) <= 0
  {
    var s' := Swap(s, index, store);
    forall k | store + 1 <= k < index + 1
      ensures cmp(s[right], s'[k]) <= 0
    {
      if k == index {
        assert s'[k] == s[store];
      }
    }
  }

  /** Under a total preorder, a partitioned range whose ends split the array
      is split again on both sides of its pivot. */
  lemma PartitionSplits<K(!new)>(cmp: (K, K) -> int, s: seq<K>, left: nat, store: nat, right: nat)
    requires TotalPreorder(cmp)
    requires left <= store <= right < |s|
    requires forall k :: left <= k < store ==> cmp(s[store], s[k]) > 0
    requires forall k :: store < k <= right ==> cmp(s[store], s[k]) <= 0
    requires SplitAt(cmp, s, left) && SplitAt(cmp, s, right + 1)
    ensures SplitAt(cmp, s, store) && SplitAt(cmp, s, store + 1)
  {
    var pivot := s[store];
    forall i | left <= i < store
      ensures Le(cmp, s[i], pivot)
    {
      assert !Le(cmp, pivot, s[i]);
    }
    forall i, j | left <= i < store < j <= right
      ensures Le(cmp, s[i], s[j])
    {
      assert Le(cmp, s[i], pivot) && Le(cmp, pivot, s[j]);
    }
    SplitBetween(cmp, s, left, store, right + 1);
    SplitBetween(cmp, s, left, store + 1, right + 1);
  }
}
