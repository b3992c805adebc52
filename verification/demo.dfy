/**
 The scenario of the repository's example program: four keys are sorted
 ascending while a co-sorting swap drags an identical dependent array along,
 and then sorted descending with the default swap, which leaves the dependent
 array as it was.
 */
module Example {
  import opened Ordering
  import opened Exchange
  import opened Pdqsort

  /** A three-way comparator for ascending order. */
  function Ascending(x: int, y: int): int {
    if x < y then -1 else if x == y then 0 else 1
  }

  /** The example's ascending comparator as written: -1 when `x < y`, and 1
      otherwise, equal keys included. */
  function Compd(x: int, y: int): int {
    if x < y then -1 else 1
  }

  /** The example's descending comparator as written: 1 when `x < y`, and -1
      otherwise. */
  function Compd2(x: int, y: int): int {
    if x < y then 1 else -1
  }

  lemma AscendingTotalOrder()
    ensures TotalOrder(Ascending)
  {
  }

  /** `Compd2` is consistent: `Le(Compd2, x, y)` means `x >= y`, a total
      order, so the descending sort runs with the comparator as written. */
  lemma Compd2TotalOrder()
    ensures TotalOrder(Compd2)
  {
  }

  /** `Compd` is not: a key never precedes itself under it. On distinct keys,
      though, it answers exactly as `Ascending` does, and the driver only
      ever compares two different slots, which hold distinct keys in the
      example. */
  lemma CompdAgrees(x: int, y: int)
    ensures !Le(Compd, x, x) && !TotalPreorder(Compd)
    ensures x != y ==> Compd(x, y) == Ascending(x, y)
  {
  }

  /** The keys of the example program. */
  const Data: seq<int> := [0, 1, 10, 5]

  /** Runs both sorts of the example with the default threshold shift. The
      co-sort leaves both arrays ascending; the descending sort reverses the
      keys and leaves the dependent array ascending. */
  method Run() returns (first: Buffers<int, int>, second: Buffers<int, int>)
    ensures first.primary == [0, 1, 5, 10] && first.parallel == [0, 1, 5, 10]
    ensures second.primary == [10, 5, 1, 0] && second.parallel == [0, 1, 5, 10]
  {
    first := CoSortAscending();
    second := SortDescending(first);
  }

  /** The first sort of the example: ascending, with the co-sorting swap. */
  method CoSortAscending() returns (b': Buffers<int, int>)
    ensures b'.primary == [0, 1, 5, 10] && b'.parallel == [0, 1, 5, 10]
  {
    var start := Buffers(Data, Data);
    SmallLength(|Data|);
    var peak;
    b', peak := Sort(CoSortSwap, Ascending, DefaultShift, start);
    AscendingTotalOrder();
    AscendingResult(b'.primary);
    DiagonalPairs(start, b');
  }

  /** The second sort of the example: descending, with the default swap. */
  method SortDescending(b: Buffers<int, int>) returns (b': Buffers<int, int>)
    requires b.primary == [0, 1, 5, 10]
    ensures b'.primary == [10, 5, 1, 0] && b'.parallel == b.parallel
  {
    SmallLength(|b.primary|);
    var peak;
    b', peak := Sort(DefaultSwap, Compd2, DefaultShift, b);
    Compd2TotalOrder();
    DescendingResult(b'.primary);
  }

  lemma SmallLength(n: nat)
    requires n <= 8
    ensures n < Pow2(WordBits)
  {
    assert Pow2(3) == 8;
    Pow2Monotone(4, WordBits);
  }

  /** The only ascending arrangement of the example keys. */
  lemma AscendingResult(s: seq<int>)
    requires Sorted(Ascending, s) && multiset(s) == multiset(Data)
    ensures s == [0, 1, 5, 10]
  {
    var sorted := [0, 1, 5, 10];
    ListFacts();
    AscendingTotalOrder();
    SortedUnique(Ascending, s, sorted);
  }

  /** The only descending arrangement of the example keys. */
  lemma DescendingResult(s: seq<int>)
    requires Sorted(Compd2, s) && multiset(s) == multiset([0, 1, 5, 10])
    ensures s == [10, 5, 1, 0]
  {
    var sorted := [10, 5, 1, 0];
    ListFacts();
    Compd2TotalOrder();
    SortedUnique(Compd2, s, sorted);
  }

  /** The two expected results are sorted arrangements of the example keys. */
  lemma ListFacts()
    ensures Sorted(Ascending, [0, 1, 5, 10]) && Sorted(Compd2, [10, 5, 1, 0])
    ensures multiset([0, 1, 5, 10]) == multiset(Data) && multiset([10, 5, 1, 0]) == multiset([0, 1, 5, 10])
  {
    AscendingListSorted();
    DescendingListSorted();
    SameKeys();
  }

  lemma AscendingListSorted()
    ensures Sorted(Ascending, [0, 1, 5, 10])
  {
    var s := [0, 1, 5, 10];
    forall i, j | 0 <= i < j < |s|
      ensures Le(Ascending, s[i], s[j])
    {
      assert s[i] < s[j];
    }
  }

  lemma DescendingListSorted()
    ensures Sorted(Compd2, [10, 5, 1, 0])
  {
    var s := [10, 5, 1, 0];
    forall i, j | 0 <= i < j < |s|
      ensures Le(Compd2, s[i], s[j])
    {
      assert s[i] > s[j];
    }
  }

  lemma SameKeys()
    ensures multiset([0, 1, 5, 10]) == multiset(Data) && multiset([10, 5, 1, 0]) == multiset([0, 1, 5, 10])
  {
  }

  /** When every pair of the storage is (x, x), a co-sort that keeps the pairs
      keeps the two arrays equal. */
  lemma DiagonalPairs(b: Buffers<int, int>, b': Buffers<int, int>)
    requires b.parallel == b.primary && |b'.parallel| == |b'.primary|
    requires multiset(Pairs(b')) == multiset(Pairs(b))
    ensures b'.parallel == b'.primary
  {
    forall k | 0 <= k < |b'.primary|
      ensures b'.parallel[k] == b'.primary[k]
    {
      assert Pairs(b')[k] in multiset(Pairs(b));
    }
  }
}
