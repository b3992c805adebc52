/**
 The quicksort driver: an explicit work stack of inclusive ranges replaces
 recursion. Each popped range is partitioned; each side of the pivot is then
 either insertion-sorted on the spot (when it is no longer than the threshold),
 pushed (when it has two or more elements), or dropped. The larger side is
 pushed first so that the smaller one is popped next, which keeps the stack
 logarithmic in the array length.
 */
module Pdqsort {
  import opened Ordering
  import opened Exchange
  import opened Partition
  import opened Insertion

  /** A pending sub-array of the work stack, both ends inclusive. */
  datatype Range = Range(left: nat, right: nat)

  /** Number of elements of a range. */
  function Size(r: Range): nat {
    if r.right < r.left then 0 else r.right - r.left + 1
  }

  /** Number of elements still waiting on the stack. */
  function Pending(stack: seq<Range>): nat {
    if |stack| == 0 then 0 else Pending(stack[..|stack| - 1]) + Size(stack[|stack| - 1])
  }

  function Pow2(e: nat): (p: nat)
    ensures p >= 1
  {
    if e == 0 then 1 else 2 * Pow2(e - 1)
  }

  /** Bits of a pointer on the target (LP64): lengths are below `Pow2(WordBits)`. */
  const WordBits: nat := 64

  /** Frames of the fixed work stack: `CHAR_BIT * sizeof(void *)`. */
  const StackCapacity: nat := WordBits

  /** Threshold shift of the insertion-sort fallback on platforms other than macOS. */
  const DefaultShift: nat := 2

  /** What happens to one side of a partitioned range. */
  datatype SideAction = Skip | SortInPlace | Push

  /** The threshold switch. A shift of 0 compiles the insertion sort out: a
      side is pushed when it has two or more elements and dropped otherwise.
      A positive shift insertion-sorts every side of at most `2^shift`
      elements and pushes the longer ones. */
  function Decide(shift: nat, count: int): (act: SideAction)
    ensures act == Push ==> count >= 2
    ensures shift == 0 ==> act != SortInPlace && (act == Push <==> count >= 2)
    ensures shift > 0 ==> (act == SortInPlace <==> count <= Pow2(shift))
    ensures shift > 0 ==> (act == Push <==> count > Pow2(shift))
  {
    if shift == 0 then
      if count >= 2 then Push else Skip
    else if count <= Pow2(shift) then
      SortInPlace
    else if count >= 2 then
      Push
    else
      Skip
  }

  /** Handles one side `[lo, hi]` of a partitioned range: pushes it, sorts it
      in place, or leaves it. Only a pushed side stays unsorted. */
  method SortSide<K(!new), P>(ex: SwapStrategy, cmp: (K, K) -> int, shift: nat, b: Buffers<K, P>,
                              lo: nat, hi: int, stack: seq<Range>)
    returns (b': Buffers<K, P>, stack': seq<Range>)
    requires Fits(ex, b) && lo <= hi + 1 <= |b.primary|
    ensures PermutedWithin(ex, b, b', lo, hi)
    ensures Decide(shift, hi + 1 - lo) == Push ==> b' == b && stack' == stack + [Range(lo, hi as nat)]
    ensures Decide(shift, hi + 1 - lo) != Push ==> stack' == stack
    ensures Decide(shift, hi + 1 - lo) != Push && TotalPreorder(cmp) ==> SortedWithin(cmp, b'.primary, lo, hi)
  {
    match Decide(shift, hi + 1 - lo)
    case Push =>
      PermutedWithinRefl(ex, b, lo, hi);
      b', stack' := b, stack + [Range(lo, hi as nat)];
    case SortInPlace =>
      b' := Insertion.InsertionSort(ex, cmp, b, lo, hi);
      stack' := stack;
    case Skip =>
      PermutedWithinRefl(ex, b, lo, hi);
      b', stack' := b, stack;
  }

  /** The ranges pushed while handling `rg`: at most two, each inside `rg`
      with at least two elements, disjoint, together smaller than `rg`, and
      when there are two the one pushed last (popped next) is the smaller and
      at most half of `rg`. */
  ghost predicate ChildRanges(rg: Range, pushed: seq<Range>) {
    && |pushed| <= 2
    && (forall t :: 0 <= t < |pushed| ==> rg.left <= pushed[t].left < pushed[t].right <= rg.right)
    && (|pushed| == 2 ==> pushed[0].right < pushed[1].left || pushed[1].right < pushed[0].left)
    && Pending(pushed) < Size(rg)
    && (|pushed| == 2 ==> Size(pushed[1]) <= Size(pushed[0]) && 2 * Size(pushed[1]) < Size(rg))
  }

  /** Boundary `k` lies strictly inside a pending range, between two of its elements. */
  ghost predicate StrictlyInside(stack: seq<Range>, k: int) {
    exists t :: 0 <= t < |stack| && stack[t].left < k <= stack[t].right
  }

  /** One turn of the main loop on the popped range `rg`: partition, then the
      two sides, the smaller one last. When the ends of `rg` split the array
      (everything outside is already in place), every boundary of `rg` that is
      not strictly inside a pushed range splits the result. */
  method SortStep<K(!new), P>(ex: SwapStrategy, cmp: (K, K) -> int, shift: nat, b: Buffers<K, P>, rg: Range)
    returns (b': Buffers<K, P>, pushed: seq<Range>)
    requires Fits(ex, b) && rg.left <= rg.right < |b.primary|
    ensures PermutedWithin(ex, b, b', rg.left, rg.right)
    ensures ChildRanges(rg, pushed)
    ensures TotalPreorder(cmp) && SplitAt(cmp, b.primary, rg.left) && SplitAt(cmp, b.primary, rg.right + 1) ==>
      forall k :: rg.left <= k <= rg.right + 1 && !StrictlyInside(pushed, k) ==> SplitAt(cmp, b'.primary, k)
  {
    var left, right := rg.left, rg.right;
    var b1, store := Partition.Partition(ex, cmp, b, left, right);
    if store - left < right - store {
      b', pushed := SortSides(ex, cmp, shift, b, b1, left, store, right, store + 1, right, left, store as int - 1);
    } else {
      b', pushed := SortSides(ex, cmp, shift, b, b1, left, store, right, left, store as int - 1, store + 1, right);
    }
  }

  /** The two sides of a partitioned range, `[a1, a2]` first and the side
      `[c1, c2]`, no longer than the first, last. */
  method SortSides<K(!new), P>(ex: SwapStrategy, cmp: (K, K) -> int, shift: nat, ghost b: Buffers<K, P>, b1: Buffers<K, P>,
                               left: nat, store: nat, right: nat, a1: nat, a2: int, c1: nat, c2: int)
    returns (b': Buffers<K, P>, pushed: seq<Range>)
    requires left <= store <= right < |b.primary|
    requires || (a1 == left && a2 == store - 1 && c1 == store + 1 && c2 == right)
             || (a1 == store + 1 && a2 == right && c1 == left && c2 == store - 1)
    requires c2 + 1 - c1 <= a2 + 1 - a1
    requires PermutedWithin(ex, b, b1, left, right)
    requires forall k :: left <= k < store ==> cmp(b1.primary[store], b1.primary[k]) > 0
    requires forall k :: store < k <= right ==> cmp(b1.primary[store], b1.primary[k]) <= 0
    ensures PermutedWithin(ex, b, b', left, right)
    ensures ChildRanges(Range(left, right), pushed)
    ensures TotalPreorder(cmp) && SplitAt(cmp, b.primary, left) && SplitAt(cmp, b.primary, right + 1) ==>
      forall k :: left <= k <= right + 1 && !StrictlyInside(pushed, k) ==> SplitAt(cmp, b'.primary, k)
  {
    var b2, mid := SortSide(ex, cmp, shift, b1, a1, a2, []);
    b', pushed := SortSide(ex, cmp, shift, b2, c1, c2, mid);
    StepFacts(ex, cmp, shift, b, b1, b2, b', left, store, right, a1, a2, c1, c2, mid, pushed);
  }

  /** The proof of `SortStep` for either order of the two sides: `[a1, a2]`
      is handled first and `[c1, c2]` second. */
  lemma StepFacts<K(!new), P>(ex: SwapStrategy, cmp: (K, K) -> int, shift: nat,
                              b: Buffers<K, P>, b1: Buffers<K, P>, b2: Buffers<K, P>, b3: Buffers<K, P>,
                              left: nat, store: nat, right: nat, a1: int, a2: int, c1: int, c2: int,
                              mid: seq<Range>, pushed: seq<Range>)
    requires left <= store <= right < |b.primary|
    requires || (a1 == left && a2 == store - 1 && c1 == store + 1 && c2 == right)
             || (a1 == store + 1 && a2 == right && c1 == left && c2 == store - 1)
    requires c2 + 1 - c1 <= a2 + 1 - a1
    requires PermutedWithin(ex, b, b1, left, right)
    requires forall k :: left <= k < store ==> cmp(b1.primary[store], b1.primary[k]) > 0
    requires forall k :: store < k <= right ==> cmp(b1.primary[store], b1.primary[k]) <= 0
    requires PermutedWithin(ex, b1, b2, a1, a2) && PermutedWithin(ex, b2, b3, c1, c2)
    requires Decide(shift, a2 + 1 - a1) == Push ==> mid == [Range(a1, a2)]
    requires Decide(shift, a2 + 1 - a1) != Push ==> mid == [] && (TotalPreorder(cmp) ==> SortedWithin(cmp, b2.primary, a1, a2))
    requires Decide(shift, c2 + 1 - c1) == Push ==> pushed == mid + [Range(c1, c2)]
    requires Decide(shift, c2 + 1 - c1) != Push ==> pushed == mid && (TotalPreorder(cmp) ==> SortedWithin(cmp, b3.primary, c1, c2))
    ensures PermutedWithin(ex, b, b3, left, right)
    ensures ChildRanges(Range(left, right), pushed)
    ensures TotalPreorder(cmp) && SplitAt(cmp, b.primary, left) && SplitAt(cmp, b.primary, right + 1) ==>
      forall k :: left <= k <= right + 1 && !StrictlyInside(pushed, k) ==> SplitAt(cmp, b3.primary, k)
  {
    PermutedWithinWiden(ex, b1, b2, a1, a2, left, right);
    PermutedWithinWiden(ex, b2, b3, c1, c2, left, right);
    PermutedWithinTrans(ex, b, b1, b2, left, right);
    PermutedWithinTrans(ex, b, b2, b3, left, right);
    ChildRangesOf(shift, left, store, right, a1, a2, c1, c2, mid, pushed);
    var aPushed := Decide(shift, a2 + 1 - a1) == Push;
    var cPushed := Decide(shift, c2 + 1 - c1) == Push;
    if aPushed {
      InsideFrame(pushed, 0);
    }
    if cPushed {
      InsideFrame(pushed, |pushed| - 1);
    }
    if TotalPreorder(cmp) && SplitAt(cmp, b.primary, left) && SplitAt(cmp, b.primary, right + 1) {
      StepSplits(cmp, b.primary, b1.primary, b2.primary, b3.primary, left, store, right, a1, a2, c1, c2, aPushed, cPushed, pushed);
    }
  }

  /** Every boundary strictly inside frame `t` is strictly inside the stack. */
  lemma InsideFrame(stack: seq<Range>, t: nat)
    requires t < |stack|
    ensures forall k :: stack[t].left < k <= stack[t].right ==> StrictlyInside(stack, k)
  {
  }

  /** The order half of `StepFacts`: after the partition and the two sides,
      every boundary of the range that is not strictly inside a pushed side
      splits the array. */
  lemma StepSplits<K(!new)>(cmp: (K, K) -> int, s0: seq<K>, s1: seq<K>, s2: seq<K>, s3: seq<K>,
                            left: nat, store: nat, right: nat, a1: int, a2: int, c1: int, c2: int,
                            aPushed: bool, cPushed: bool, pushed: seq<Range>)
    requires TotalPreorder(cmp)
    requires left <= store <= right < |s0|
    requires || (a1 == left && a2 == store - 1 && c1 == store + 1 && c2 == right)
             || (a1 == store + 1 && a2 == right && c1 == left && c2 == store - 1)
    requires SplitAt(cmp, s0, left) && SplitAt(cmp, s0, right + 1)
    requires Rearranged(s0, s1, left, right)
    requires forall k :: left <= k < store ==> cmp(s1[store], s1[k]) > 0
    requires forall k :: store < k <= right ==> cmp(s1[store], s1[k]) <= 0
    requires Rearranged(s1, s2, a1, a2) && Rearranged(s2, s3, c1, c2)
    requires !aPushed ==> SortedWithin(cmp, s2, a1, a2)
    requires !cPushed ==> SortedWithin(cmp, s3, c1, c2)
    requires aPushed ==> forall k :: a1 < k <= a2 ==> StrictlyInside(pushed, k)
    requires cPushed ==> forall k :: c1 < k <= c2 ==> StrictlyInside(pushed, k)
    ensures forall k :: left <= k <= right + 1 && !StrictlyInside(pushed, k) ==> SplitAt(cmp, s3, k)
  {
    KeepsSplits(cmp, s0, s1, left, right);
    PartitionSplits(cmp, s1, left, store, right);
    KeepsSplits(cmp, s1, s2, a1, a2);
    if !aPushed {
      SortedStretchSplits(cmp, s2, a1, a2);
    }
    KeepsSplits(cmp, s2, s3, c1, c2);
    if !cPushed {
      SortedStretchSplits(cmp, s3, c1, c2);
    }
    forall k | left <= k <= right + 1 && !StrictlyInside(pushed, k)
      ensures SplitAt(cmp, s3, k)
    {
      if a1 < k <= a2 {
        assert SplitAt(cmp, s2, k);
      } else if c1 < k <= c2 {
      } else {
        assert k == left || k == store || k == store + 1 || k == right + 1;
        assert SplitAt(cmp, s2, k);
      }
    }
  }

  /** The shape half of `StepFacts`: which ranges were pushed and how large they are. */
  lemma ChildRangesOf(shift: nat, left: nat, store: nat, right: nat, a1: int, a2: int, c1: int, c2: int,
                      mid: seq<Range>, pushed: seq<Range>)
    requires left <= store <= right
    requires || (a1 == left && a2 == store - 1 && c1 == store + 1 && c2 == right)
             || (a1 == store + 1 && a2 == right && c1 == left && c2 == store - 1)
    requires c2 + 1 - c1 <= a2 + 1 - a1
    requires Decide(shift, a2 + 1 - a1) == Push ==> mid == [Range(a1, a2)]
    requires Decide(shift, a2 + 1 - a1) != Push ==> mid == []
    requires Decide(shift, c2 + 1 - c1) == Push ==> pushed == mid + [Range(c1, c2)]
    requires Decide(shift, c2 + 1 - c1) != Push ==> pushed == mid
    ensures ChildRanges(Range(left, right), pushed)
  {
    var aPushed := Decide(shift, a2 + 1 - a1) == Push;
    var cPushed := Decide(shift, c2 + 1 - c1) == Push;
    if aPushed && cPushed {
      PendingPair(Range(a1, a2), Range(c1, c2));
    } else if aPushed {
      PendingPair(Range(a1, a2), Range(0, 0));
    }
  }

  /** Elements pending on one- and two-frame stacks. */
  lemma PendingPair(x: Range, y: Range)
    ensures Pending([x]) == Size(x)
    ensures Pending([x, y]) == Size(x) + Size(y)
  {
    assert [x][..0] == [];
    assert [x, y][..1] == [x];
  }

  /** The stack is made of disjoint ranges of `[0, n)`; all of them but the
      bottom one have two or more elements. */
  ghost predicate StackShape(stack: seq<Range>, n: nat) {
    && (forall t :: 0 <= t < |stack| ==> stack[t].left <= stack[t].right < n)
    && (forall t :: 0 < t < |stack| ==> stack[t].left < stack[t].right)
    && (forall t, u :: 0 <= t < u < |stack| ==> stack[t].right < stack[u].left || stack[u].right < stack[t].left)
  }

  /** Each frame is at most `n / 2^depth` long: smaller halves are stacked on larger ones. */
  ghost predicate DepthBound(stack: seq<Range>, n: nat) {
    forall t :: 0 <= t < |stack| ==> Size(stack[t]) * Pow2(t) <= n
  }

  /** Modulus of `size_t` arithmetic on the target. */
  const SizeModulus: nat := 0x1_0000_0000_0000_0000

  /** The byte offset of the first frame's right end, as written: the
      element count minus one, times the element size, both in wrapping
      `size_t` arithmetic. It is the offset of the last element whenever the
      array is not empty, but for an empty array it wraps around to one
      element before the start of the buffer. */
  function InitialRightOffset(length: nat, size: nat): (off: nat)
    requires length < SizeModulus && size < SizeModulus
    ensures off < SizeModulus
  {
    (size * ((length - 1) % SizeModulus)) % SizeModulus
  }

  /** The two regimes of `InitialRightOffset`: the last element's offset for a
      non-empty array (whose byte length fits `size_t`), and one element
      before the buffer, wrapped, for an empty one. */
  lemma InitialRightOffsetCases(length: nat, size: nat)
    requires length < SizeModulus && size < SizeModulus
    ensures 0 < length && length * size < SizeModulus ==> InitialRightOffset(length, size) == (length - 1) * size
    ensures length == 0 && 0 < size ==> InitialRightOffset(length, size) + size == SizeModulus
  {
    var wrapped := (length - 1) % SizeModulus;
    var product := size * wrapped;
    if length == 0 && 0 < size {
      DivModUnique(length - 1, SizeModulus, -1, SizeModulus - 1);
      assert product == (size - 1) * SizeModulus + (SizeModulus - size);
      DivModUnique(product, SizeModulus, size - 1, SizeModulus - size);
    }
    if 0 < length && length * size < SizeModulus {
      DivModUnique(length - 1, SizeModulus, 0, length - 1);
      assert product <= length * size;
      DivModUnique(product, SizeModulus, 0, product);
    }
  }

  /** A concrete input: sorting an empty array of 8-byte elements starts from
      a frame whose right end lies 8 bytes before the array. */
  lemma EmptyArrayFrameEscapes()
    ensures InitialRightOffset(0, 8) == 0xFFFF_FFFF_FFFF_FFF8
  {
    InitialRightOffsetCases(0, 8);
  }

  /** The corrected initial stack: the whole array as one range, or nothing
      at all for an empty array. */
  function InitialStack(n: nat): (stack: seq<Range>)
    ensures n == 0 <==> stack == []
    ensures n > 0 ==> stack == [Range(0, n - 1)] && Size(stack[0]) == n
    ensures StackShape(stack, n) && DepthBound(stack, n) && Pending(stack) == n
  {
    if n == 0 then [] else [Range(0, n - 1)]
  }

  /** Sorts the primary array in place under `cmp`, moving elements only by
      the exchange strategy `ex`, with insertion-sort threshold shift `shift`.
      Whatever the comparator: the primary array is permuted, the default swap
      leaves the parallel array alone, the co-sorting swap keeps every
      (key, payload) pair together, and `peak`, the most ranges the loop
      ever held pending, is at least the one initial frame, obeys
      `2^peak <= 2n` and fits the fixed stack (that every turn stays within
      the stack is `Turn`'s own guarantee). Under a total preorder the result
      is sorted; under a total order an already sorted array is returned
      unchanged. */
  method Sort<K(!new), P>(ex: SwapStrategy, cmp: (K, K) -> int, shift: nat, b: Buffers<K, P>)
    returns (b': Buffers<K, P>, peak: nat)
    requires Fits(ex, b) && |b.primary| < Pow2(WordBits)
    ensures |b'.primary| == |b.primary| && multiset(b'.primary) == multiset(b.primary)
    ensures ex == DefaultSwap ==> b'.parallel == b.parallel
    ensures ex == CoSortSwap ==> |b'.parallel| == |b'.primary| && multiset(Pairs(b')) == multiset(Pairs(b))
    ensures TotalPreorder(cmp) ==> Sorted(cmp, b'.primary)
    ensures TotalPreorder(cmp) ==> forall i :: 0 <= i < |b'.primary| - 1 ==> cmp(b'.primary[i], b'.primary[i + 1]) <= 0
    ensures TotalOrder(cmp) && Sorted(cmp, b.primary) ==> b'.primary == b.primary
    ensures |b.primary| <= 1 ==> b' == b
    ensures |b.primary| > 0 ==> 1 <= peak && Pow2(peak) <= 2 * |b.primary|
    ensures peak <= StackCapacity
  {
    var n := |b.primary|;
    b' := b;
    var stack := InitialStack(n);
    InitialInvariant(ex, cmp, b, stack);
    peak := |stack|;
    while |stack| > 0
      invariant Invariant(ex, cmp, b, b', stack)
      invariant n > 0 ==> 1 <= peak && Pow2(peak) <= 2 * n
      invariant n == 0 ==> peak == 0
      invariant |stack| <= peak <= StackCapacity
      decreases Pending(stack)
    {
      b', stack := Turn(ex, cmp, shift, b, b', stack);
      if |stack| > peak {
        peak := |stack|;
      }
    }
    Finish(ex, cmp, b, b', n);
    CapacityLimit(peak, n);
  }

  /** What holds before every turn of the main loop: the work so far
      rearranged the array, the stack has its shape and depth bound, and
      every boundary outside the pending frames splits the array. */
  ghost predicate Invariant<K(!new), P>(ex: SwapStrategy, cmp: (K, K) -> int, b: Buffers<K, P>, b': Buffers<K, P>, stack: seq<Range>) {
    && PermutedWithin(ex, b, b', 0, |b.primary| - 1)
    && StackShape(stack, |b.primary|) && DepthBound(stack, |b.primary|)
    && (TotalPreorder(cmp) ==>
          forall k :: 0 <= k <= |b.primary| && !StrictlyInside(stack, k) ==> SplitAt(cmp, b'.primary, k))
  }

  /** The loop starts with the invariant in place: only the ends of the array
      lie outside the first frame, and they split it trivially. */
  lemma InitialInvariant<K(!new), P>(ex: SwapStrategy, cmp: (K, K) -> int, b: Buffers<K, P>, stack: seq<Range>)
    requires Fits(ex, b) && stack == InitialStack(|b.primary|)
    ensures Invariant(ex, cmp, b, b, stack)
  {
    PermutedWithinRefl(ex, b, 0, |b.primary| - 1);
    var n := |b.primary|;
    forall k | 0 <= k <= n && !StrictlyInside(stack, k)
      ensures SplitAt(cmp, b.primary, k)
    {
      if n > 0 {
        assert !(stack[0].left < k <= stack[0].right);
      }
    }
  }

  /** One turn of the main loop: pop the top frame and run `SortStep` on it.
      The invariant is kept, fewer elements are pending, and the stack stays
      within `log2(n) + 1` frames. */
  method Turn<K(!new), P>(ex: SwapStrategy, cmp: (K, K) -> int, shift: nat, ghost b: Buffers<K, P>, b': Buffers<K, P>, stack: seq<Range>)
    returns (b'': Buffers<K, P>, stack': seq<Range>)
    requires |b.primary| < Pow2(WordBits)
    requires |stack| > 0 && Invariant(ex, cmp, b, b', stack)
    ensures Invariant(ex, cmp, b, b'', stack')
    ensures Pending(stack') < Pending(stack)
    ensures Pow2(|stack'|) <= 2 * |b.primary|
    ensures |stack'| <= StackCapacity
  {
    var n := |b.primary|;
    var rg := stack[|stack| - 1];
    var pushed;
    b'', pushed := SortStep(ex, cmp, shift, b', rg);
    PermutedWithinWiden(ex, b', b'', rg.left, rg.right, 0, n - 1);
    PermutedWithinTrans(ex, b, b', b'', 0, n - 1);
    LoopShape(stack, pushed, n);
    if TotalPreorder(cmp) {
      LoopSplits(cmp, b'.primary, b''.primary, stack, pushed, n);
    }
    stack' := stack[..|stack| - 1] + pushed;
    StackBound(stack', n);
  }

  /** A stack of that shape over an array whose length fits in a word stays
      within `log2(n) + 1` frames, hence within the fixed stack. */
  lemma StackBound(stack: seq<Range>, n: nat)
    requires 0 < n < Pow2(WordBits) && StackShape(stack, n) && DepthBound(stack, n)
    ensures Pow2(|stack|) <= 2 * n && |stack| <= StackCapacity
  {
    DepthLimit(stack, n);
    CapacityLimit(|stack|, n);
  }

  /** The shape of the stack survives one turn of the main loop, and fewer
      elements are pending afterwards. */
  lemma LoopShape(stack: seq<Range>, pushed: seq<Range>, n: nat)
    requires |stack| > 0 && StackShape(stack, n) && DepthBound(stack, n)
    requires ChildRanges(stack[|stack| - 1], pushed)
    ensures StackShape(stack[..|stack| - 1] + pushed, n) && DepthBound(stack[..|stack| - 1] + pushed, n)
    ensures Pending(stack[..|stack| - 1] + pushed) < Pending(stack)
  {
    var top := |stack| - 1;
    PendingAppend(stack[..top], pushed);
    StackShapeStep(stack, pushed, n);
    DepthBoundStep(stack, pushed, n);
  }

  /** Every boundary outside the pending ranges still splits the array after
      one turn of the main loop. */
  lemma LoopSplits<K(!new)>(cmp: (K, K) -> int, s: seq<K>, s': seq<K>, stack: seq<Range>, pushed: seq<Range>, n: nat)
    requires TotalPreorder(cmp)
    requires |stack| > 0 && |s| == n && StackShape(stack, n)
    requires Rearranged(s, s', stack[|stack| - 1].left, stack[|stack| - 1].right)
    requires SplitAt(cmp, s, stack[|stack| - 1].left) && SplitAt(cmp, s, stack[|stack| - 1].right + 1) ==>
      forall k :: stack[|stack| - 1].left <= k <= stack[|stack| - 1].right + 1 && !StrictlyInside(pushed, k) ==> SplitAt(cmp, s', k)
    requires forall k :: 0 <= k <= n && !StrictlyInside(stack, k) ==> SplitAt(cmp, s, k)
    ensures forall k :: 0 <= k <= n && !StrictlyInside(stack[..|stack| - 1] + pushed, k) ==> SplitAt(cmp, s', k)
  {
    var top := |stack| - 1;
    var rg := stack[top];
    var rest := stack[..top];
    var next := rest + pushed;
    InsideDisjoint(stack, n);
    KeepsSplits(cmp, s, s', rg.left, rg.right);
    forall t, k | 0 <= t < |pushed| && pushed[t].left < k <= pushed[t].right
      ensures StrictlyInside(next, k)
    {
      assert next[|rest| + t] == pushed[t];
    }
    forall t, k | 0 <= t < top && stack[t].left < k <= stack[t].right
      ensures StrictlyInside(next, k)
    {
      assert next[t] == stack[t];
    }
  }

  /** The ends of the top range are not strictly inside any pending range. */
  lemma InsideDisjoint(stack: seq<Range>, n: nat)
    requires |stack| > 0 && StackShape(stack, n)
    ensures !StrictlyInside(stack, stack[|stack| - 1].left)
    ensures !StrictlyInside(stack, stack[|stack| - 1].right + 1)
  {
    var top := |stack| - 1;
    forall t | 0 <= t < |stack|
      ensures !(stack[t].left < stack[top].left <= stack[t].right)
      ensures !(stack[t].left < stack[top].right + 1 <= stack[t].right)
    {
      if t < top {
        assert stack[t].right < stack[top].left || stack[top].right < stack[t].left;
      }
    }
  }

  lemma {:induction false} PendingAppend(a: seq<Range>, c: seq<Range>)
    ensures Pending(a + c) == Pending(a) + Pending(c)
    decreases |c|
  {
    if |c| == 0 {
      assert a + c == a;
    } else {
      var last := |c| - 1;
      assert (a + c)[..|a + c| - 1] == a + c[..last];
      PendingAppend(a, c[..last]);
    }
  }

  lemma StackShapeStep(stack: seq<Range>, pushed: seq<Range>, n: nat)
    requires |stack| > 0 && StackShape(stack, n) && ChildRanges(stack[|stack| - 1], pushed)
    ensures StackShape(stack[..|stack| - 1] + pushed, n)
  {
    var top := |stack| - 1;
    var next := stack[..top] + pushed;
    forall t, u | 0 <= t < u < |next|
      ensures next[t].right < next[u].left || next[u].right < next[t].left
    {
      if u < top {
        assert next[t] == stack[t] && next[u] == stack[u];
      } else if t < top {
        assert next[t] == stack[t];
        assert stack[t].right < stack[top].left || stack[top].right < stack[t].left;
      }
    }
  }

  lemma DepthBoundStep(stack: seq<Range>, pushed: seq<Range>, n: nat)
    requires |stack| > 0 && DepthBound(stack, n) && ChildRanges(stack[|stack| - 1], pushed)
    ensures DepthBound(stack[..|stack| - 1] + pushed, n)
  {
    var top := |stack| - 1;
    var next := stack[..top] + pushed;
    var m := Size(stack[top]);
    assert m * Pow2(top) <= n;
    forall t | 0 <= t < |next|
      ensures Size(next[t]) * Pow2(t) <= n
    {
      if t < top {
        assert next[t] == stack[t];
      } else if t == top {
        MulMonotone(Size(next[t]), m, Pow2(top));
      } else {
        assert 2 * Size(next[t]) <= m;
        assert Size(next[t]) * Pow2(t) == (2 * Size(next[t])) * Pow2(top);
        MulMonotone(2 * Size(next[t]), m, Pow2(top));
      }
    }
  }

  lemma MulMonotone(x: nat, y: nat, z: nat)
    requires x <= y
    ensures x * z <= y * z
  {
  }

  /** A stack of this shape has at most `log2(n) + 1` frames. */
  lemma DepthLimit(stack: seq<Range>, n: nat)
    requires n > 0 && StackShape(stack, n) && DepthBound(stack, n)
    ensures Pow2(|stack|) <= 2 * n
  {
    if |stack| >= 2 {
      var top := |stack| - 1;
      assert Size(stack[top]) >= 2;
      MulMonotone(2, Size(stack[top]), Pow2(top));
    }
  }

  /** Since `n < 2^WordBits`, `Pow2(peak) <= 2n` keeps `peak` within the fixed stack. */
  lemma CapacityLimit(peak: nat, n: nat)
    requires n < Pow2(WordBits)
    requires n > 0 ==> Pow2(peak) <= 2 * n
    requires n == 0 ==> peak == 0
    ensures peak <= StackCapacity
  {
    if peak > StackCapacity {
      Pow2Monotone(WordBits + 1, peak);
    }
  }

  lemma {:induction false} Pow2Monotone(a: nat, b: nat)
    requires a <= b
    ensures Pow2(a) <= Pow2(b)
    decreases b - a
  {
    if a < b {
      Pow2Monotone(a, b - 1);
    }
  }

  /** With no range pending every boundary splits, so the array is sorted. */
  lemma Finish<K(!new), P>(ex: SwapStrategy, cmp: (K, K) -> int, b: Buffers<K, P>, b': Buffers<K, P>, n: nat)
    requires n == |b.primary| && PermutedWithin(ex, b, b', 0, n - 1)
    requires TotalPreorder(cmp) ==> forall k :: 0 <= k <= n && !StrictlyInside([], k) ==> SplitAt(cmp, b'.primary, k)
    ensures TotalPreorder(cmp) ==> Sorted(cmp, b'.primary)
    ensures TotalPreorder(cmp) ==> forall i :: 0 <= i < n - 1 ==> cmp(b'.primary[i], b'.primary[i + 1]) <= 0
    ensures TotalOrder(cmp) && Sorted(cmp, b.primary) ==> b'.primary == b.primary
    ensures n <= 1 ==> b' == b
  {
    if TotalPreorder(cmp) {
      AllSplitsSorted(cmp, b'.primary);
      if TotalOrder(cmp) && Sorted(cmp, b.primary) {
        SortedUnique(cmp, b'.primary, b.primary);
      }
    }
    if n <= 1 {
      SmallUnchanged(ex, b, b', n);
    }
  }

  /** Nothing can move in an array of at most one element. */
  lemma SmallUnchanged<K, P>(ex: SwapStrategy, b: Buffers<K, P>, b': Buffers<K, P>, n: nat)
    requires n == |b.primary| <= 1 && PermutedWithin(ex, b, b', 0, n - 1)
    ensures b' == b
  {
    if n == 1 {
      assert b'.primary[0] in multiset(b.primary);
      assert b'.primary == b.primary;
      if ex == CoSortSwap {
        assert Pairs(b')[0] in multiset(Pairs(b));
        assert b'.parallel == b.parallel;
      }
    } else {
      assert b'.primary == b.primary;
      if ex == CoSortSwap {
        assert b'.parallel == b.parallel;
      }
    }
  }
}
