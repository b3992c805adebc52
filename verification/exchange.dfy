/**
 The exchange primitive: the only way the sort moves elements. The caller's
 storage is a primary array (the one compared) plus an optional parallel array
 with the same index correspondence. The swap strategy decides what an
 exchange of two slots does to them: the library's default swap touches the
 primary array only, while a co-sorting swap mirrors every exchange onto the
 parallel array.
 */
module Exchange {
  import opened Ordering

  /** The two swap macros of the repository: the library default, and the
      co-sorting swap a caller substitutes to drag a dependent array along. */
  datatype SwapStrategy = DefaultSwap | CoSortSwap

  /** The caller's storage: the array being sorted and the array co-sorted with it. */
  datatype Buffers<K, P> = Buffers(primary: seq<K>, parallel: seq<P>)

  /** A co-sorting swap needs the parallel array to be as long as the primary one. */
  predicate Fits<K, P>(ex: SwapStrategy, b: Buffers<K, P>) {
    ex == DefaultSwap || |b.parallel| == |b.primary|
  }

  /** Exchange of two whole slots of a sequence. */
  function Swap<T>(s: seq<T>, i: nat, j: nat): (r: seq<T>)
    requires i < |s| && j < |s|
    ensures |r| == |s|
    ensures r[i] == s[j] && r[j] == s[i]
    ensures forall k :: 0 <= k < |s| && k != i && k != j ==> r[k] == s[k]
    ensures multiset(r) == multiset(s)
  {
    s[i := s[j]][j := s[i]]
  }

  /** Swapping a slot with itself is a no-op. */
  lemma SwapSelf<T>(s: seq<T>, i: nat)
    requires i < |s|
    ensures Swap(s, i, i) == s
  {
  }

  /** An exchange undoes itself. */
  lemma SwapInvolution<T>(s: seq<T>, i: nat, j: nat)
    requires i < |s| && j < |s|
    ensures Swap(Swap(s, i, j), i, j) == s
  {
    var r := Swap(Swap(s, i, j), i, j);
    forall k | 0 <= k < |s|
      ensures r[k] == s[k]
    {
      if k == i || k == j {
        assert Swap(s, i, j)[i] == s[j] && Swap(s, i, j)[j] == s[i];
      }
    }
  }

  /** One exchange of slots `i` and `j` under the chosen strategy. */
  function Apply<K, P>(ex: SwapStrategy, b: Buffers<K, P>, i: nat, j: nat): (b': Buffers<K, P>)
    requires Fits(ex, b) && i < |b.primary| && j < |b.primary|
    ensures Fits(ex, b')
    ensures b'.primary == Swap(b.primary, i, j)
    ensures |b'.primary| == |b.primary| && b'.primary[i] == b.primary[j] && b'.primary[j] == b.primary[i]
    ensures forall k :: 0 <= k < |b.primary| && k != i && k != j ==> b'.primary[k] == b.primary[k]
    ensures ex == DefaultSwap ==> b'.parallel == b.parallel
    ensures ex == CoSortSwap ==> b'.parallel == Swap(b.parallel, i, j)
  {
    match ex
    case DefaultSwap => b.(primary := Swap(b.primary, i, j))
    case CoSortSwap => Buffers(Swap(b.primary, i, j), Swap(b.parallel, i, j))
  }

  /** The index correspondence between the two arrays, as a sequence of pairs. */
  function Pairs<K, P>(b: Buffers<K, P>): (z: seq<(K, P)>)
    requires |b.parallel| == |b.primary|
    ensures |z| == |b.primary|
    ensures forall k :: 0 <= k < |z| ==> z[k] == (b.primary[k], b.parallel[k])
  {
    seq(|b.primary|, k requires 0 <= k < |b.primary| => (b.primary[k], b.parallel[k]))
  }

  /** Byte-level default swap: exchanges the `size` bytes at offset `a` with
      the `size` bytes at offset `b`, one byte at a time through a one-byte
      temporary. The two blocks must be identical or disjoint. */
  method DefaultSwapBytes(mem: seq<bv8>, a: nat, b: nat, size: nat) returns (m: seq<bv8>)
    requires a + size <= |mem| && b + size <= |mem|
    requires a == b || a + size <= b || b + size <= a
    ensures BlocksExchanged(mem, m, a, b, size)
    ensures a == b ==> m == mem
  {
    m := mem;
    var i := 0;
    while i < size
      invariant 0 <= i <= size && |m| == |mem|
      invariant forall k :: a <= k < a + i ==> m[k] == mem[b + (k - a)]
      invariant forall k :: b <= k < b + i ==> m[k] == mem[a + (k - b)]
      invariant forall k :: 0 <= k < |mem| && !(a <= k < a + i) && !(b <= k < b + i) ==> m[k] == mem[k]
    {
      var t := m[b + i];
      m := m[b + i := m[a + i]];
      m := m[a + i := t];
      i := i + 1;
    }
  }

  /** Byte offset of element `k` when elements are `size` bytes long. */
  function Offset(k: nat, size: nat): nat {
    if k == 0 then 0 else Offset(k - 1, size) + size
  }

  /** The offset is the pointer arithmetic `k * size`. */
  lemma {:induction false} OffsetIsProduct(k: nat, size: nat)
    ensures Offset(k, size) == k * size
  {
    if k > 0 {
      OffsetIsProduct(k - 1, size);
    }
  }

  /** A later element starts after an earlier one ends. */
  lemma {:induction false} OffsetsApart(k: nat, i: nat, size: nat)
    requires k < i
    ensures Offset(k, size) + size <= Offset(i, size)
  {
    if k < i - 1 {
      OffsetsApart(k, i - 1, size);
    }
  }

  /** A byte buffer of `count` elements viewed element by element. */
  function Slots(mem: seq<bv8>, size: nat, count: nat): (v: seq<seq<bv8>>)
    requires count * size == |mem|
    ensures |v| == count
    ensures forall k :: 0 <= k < count ==> |v[k]| == size
  {
    OffsetIsProduct(count, size);
    seq(count, k requires 0 <= k < count => SlotBytes(mem, size, count, k))
  }

  /** The `size` bytes of element `k`. */
  function SlotBytes(mem: seq<bv8>, size: nat, count: nat, k: nat): (e: seq<bv8>)
    requires Offset(count, size) == |mem| && k < count
    ensures |e| == size
  {
    OffsetsApart(k, count, size);
    mem[Offset(k, size)..Offset(k, size) + size]
  }

  /** `m` is `mem` with the `size`-byte blocks at offsets `a` and `b`
      exchanged: each block holds the other's bytes and every other byte is
      kept. */
  ghost predicate BlocksExchanged(mem: seq<bv8>, m: seq<bv8>, a: nat, b: nat, size: nat) {
    && |m| == |mem| && a + size <= |mem| && b + size <= |mem|
    && (forall k :: a <= k < a + size ==> m[k] == mem[b + (k - a)])
    && (forall k :: b <= k < b + size ==> m[k] == mem[a + (k - b)])
    && (forall k :: 0 <= k < |mem| && !(a <= k < a + size) && !(b <= k < b + size) ==> m[k] == mem[k])
  }

  /** The byte-level default swap of two whole elements of a buffer is the
      exchange of those two slots: applied to elements `i` and `j` of a buffer
      of `count` elements, `DefaultSwapBytes` performs exactly the `Swap`
      this model uses for one `PDQSORT_SWAP`. */
  lemma SwapBytesIsSlotSwap(mem: seq<bv8>, m: seq<bv8>, size: nat, count: nat, i: nat, j: nat)
    requires count * size == |mem| && i < count && j < count
    requires BlocksExchanged(mem, m, i * size, j * size, size)
    ensures Slots(m, size, count) == Swap(Slots(mem, size, count), i, j)
  {
    OffsetIsProduct(count, size);
    OffsetIsProduct(i, size);
    OffsetIsProduct(j, size);
    var after, before := Slots(m, size, count), Slots(mem, size, count);
    forall k | 0 <= k < count
      ensures after[k] == Swap(before, i, j)[k]
    {
      var from := if k == i then j else if k == j then i else k;
      SlotAfterSwap(mem, m, size, count, i, j, k, from);
    }
  }

  /** Element `k` after the byte swap of elements `i` and `j` holds the bytes
      element `from` held before. */
  lemma SlotAfterSwap(mem: seq<bv8>, m: seq<bv8>, size: nat, count: nat, i: nat, j: nat, k: nat, from: nat)
    requires Offset(count, size) == |mem| && i < count && j < count && k < count
    requires from == if k == i then j else if k == j then i else k
    requires BlocksExchanged(mem, m, Offset(i, size), Offset(j, size), size)
    ensures from < count && SlotBytes(m, size, count, k) == SlotBytes(mem, size, count, from)
  {
    var a, b := Offset(i, size), Offset(j, size);
    if k == i || k == j {
      SlotMoved(mem, m, size, count, a, b, k, from);
    } else {
      if k < i { OffsetsApart(k, i, size); } else { OffsetsApart(i, k, size); }
      if k < j { OffsetsApart(k, j, size); } else { OffsetsApart(j, k, size); }
      SlotKept(mem, m, size, count, a, b, k);
    }
  }

  /** One of the two exchanged elements, at offset `a` or `b`, holds the
      other's bytes. */
  lemma SlotMoved(mem: seq<bv8>, m: seq<bv8>, size: nat, count: nat, a: nat, b: nat, k: nat, from: nat)
    requires Offset(count, size) == |mem| && k < count && from < count
    requires (Offset(k, size) == a && Offset(from, size) == b) || (Offset(k, size) == b && Offset(from, size) == a)
    requires BlocksExchanged(mem, m, a, b, size)
    ensures SlotBytes(m, size, count, k) == SlotBytes(mem, size, count, from)
  {
    OffsetsApart(k, count, size);
    OffsetsApart(from, count, size);
    BlockAfterSwap(mem, m, a, b, Offset(k, size), Offset(from, size), size);
  }

  /** An element disjoint from the blocks at `a` and `b` keeps its bytes. */
  lemma SlotKept(mem: seq<bv8>, m: seq<bv8>, size: nat, count: nat, a: nat, b: nat, k: nat)
    requires Offset(count, size) == |mem| && k < count
    requires Offset(k, size) + size <= a || a + size <= Offset(k, size)
    requires Offset(k, size) + size <= b || b + size <= Offset(k, size)
    requires BlocksExchanged(mem, m, a, b, size)
    ensures SlotBytes(m, size, count, k) == SlotBytes(mem, size, count, k)
  {
    OffsetsApart(k, count, size);
    BlockAfterSwap(mem, m, a, b, Offset(k, size), Offset(k, size), size);
  }

  /** The block of `size` bytes at offset `base` after exchanging the blocks
      at `a` and `b`: the other block's bytes if it is one of them, its own
      bytes if it is disjoint from both. */
  lemma BlockAfterSwap(mem: seq<bv8>, m: seq<bv8>, a: nat, b: nat, base: nat, from: nat, size: nat)
    requires BlocksExchanged(mem, m, a, b, size) && base + size <= |mem|
    requires || (base == a && from == b)
             || (base == b && from == a)
             || (from == base && (base + size <= a || a + size <= base) && (base + size <= b || b + size <= base))
    ensures from + size <= |mem| && m[base..base + size] == mem[from..from + size]
  {
    var e, e' := m[base..base + size], mem[from..from + size];
    forall t | 0 <= t < size
      ensures e[t] == e'[t]
    {
      assert e[t] == m[base + t] && e'[t] == mem[from + t];
    }
  }

  /** `b'` arises from `b` by exchanges of slots inside `[lo, hi]` only: the
      primary array keeps its multiset and every slot outside the range, the
      default swap leaves the parallel array alone, and the co-sorting swap
      moves whole (key, payload) pairs, again only among the slots of the
      range. */
  ghost predicate PermutedWithin<K, P>(ex: SwapStrategy, b: Buffers<K, P>, b': Buffers<K, P>, lo: int, hi: int) {
    && Fits(ex, b) && Fits(ex, b')
    && Rearranged(b.primary, b'.primary, lo, hi)
    && (ex == DefaultSwap ==> b'.parallel == b.parallel)
    && (ex == CoSortSwap ==> Rearranged(Pairs(b), Pairs(b'), lo, hi))
  }

  /** `s'` holds the elements of `s`, moved only among the slots of `[lo, hi]`. */
  ghost predicate Rearranged<K>(s: seq<K>, s': seq<K>, lo: int, hi: int) {
    && |s'| == |s|
    && multiset(s') == multiset(s)
    && (forall k :: 0 <= k < |s| && !(lo <= k <= hi) ==> s'[k] == s[k])
  }

  /** Under either strategy the dependent array outside the range is as it was. */
  lemma PayloadsStayOutside<K, P>(ex: SwapStrategy, b: Buffers<K, P>, b': Buffers<K, P>, lo: int, hi: int)
    requires PermutedWithin(ex, b, b', lo, hi)
    ensures |b'.parallel| == |b.parallel|
    ensures forall k :: 0 <= k < |b.parallel| && !(lo <= k <= hi) ==> b'.parallel[k] == b.parallel[k]
  {
    if ex == CoSortSwap {
      forall k | 0 <= k < |b.parallel| && !(lo <= k <= hi)
        ensures b'.parallel[k] == b.parallel[k]
      {
        assert Pairs(b')[k] == Pairs(b)[k];
      }
    }
  }

  lemma PermutedWithinRefl<K, P>(ex: SwapStrategy, b: Buffers<K, P>, lo: int, hi: int)
    requires Fits(ex, b)
    ensures PermutedWithin(ex, b, b, lo, hi)
  {
  }

  /** One more exchange inside the range keeps the relation. */
  lemma PermutedWithinStep<K, P>(ex: SwapStrategy, b0: Buffers<K, P>, b: Buffers<K, P>, lo: int, hi: int, i: nat, j: nat)
    requires PermutedWithin(ex, b0, b, lo, hi)
    requires lo <= i <= hi && lo <= j <= hi && i < |b.primary| && j < |b.primary|
    ensures PermutedWithin(ex, b0, Apply(ex, b, i, j), lo, hi)
  {
    if ex == CoSortSwap {
      CoSortSwapMovesPairs(b, i, j);
    }
  }

  /** The co-sorting swap exchanges whole (key, payload) pairs: the pair view
      of the storage is swapped exactly like the primary array. */
  lemma CoSortSwapMovesPairs<K, P>(b: Buffers<K, P>, i: nat, j: nat)
    requires |b.parallel| == |b.primary| && i < |b.primary| && j < |b.primary|
    ensures Pairs(Apply(CoSortSwap, b, i, j)) == Swap(Pairs(b), i, j)
  {
  }

  /** A single exchange inside the range. */
  lemma PermutedWithinOne<K, P>(ex: SwapStrategy, b: Buffers<K, P>, lo: int, hi: int, i: nat, j: nat)
    requires Fits(ex, b)
    requires lo <= i <= hi && lo <= j <= hi && i < |b.primary| && j < |b.primary|
    ensures PermutedWithin(ex, b, Apply(ex, b, i, j), lo, hi)
  {
    PermutedWithinStep(ex, b, b, lo, hi, i, j);
  }

  lemma PermutedWithinTrans<K, P>(ex: SwapStrategy, b0: Buffers<K, P>, b1: Buffers<K, P>, b2: Buffers<K, P>, lo: int, hi: int)
    requires PermutedWithin(ex, b0, b1, lo, hi) && PermutedWithin(ex, b1, b2, lo, hi)
    ensures PermutedWithin(ex, b0, b2, lo, hi)
  {
  }

  lemma PermutedWithinWiden<K, P>(ex: SwapStrategy, b: Buffers<K, P>, b': Buffers<K, P>, lo: int, hi: int, lo': int, hi': int)
    requires PermutedWithin(ex, b, b', lo, hi)
    requires lo' <= lo && hi <= hi'
    ensures PermutedWithin(ex, b, b', lo', hi')
  {
  }

  /** Rearranging the slots of `[lo, hi]` keeps the multiset of that stretch. */
  lemma StretchMultiset<K>(s: seq<K>, s': seq<K>, lo: int, hi: int)
    requires 0 <= lo <= hi + 1 <= |s| && Rearranged(s, s', lo, hi)
    ensures multiset(s'[lo..hi + 1]) == multiset(s[lo..hi + 1])
  {
    assert s == s[..lo] + s[lo..hi + 1] + s[hi + 1..];
    assert s' == s'[..lo] + s'[lo..hi + 1] + s'[hi + 1..];
    assert s'[..lo] == s[..lo];
    assert s'[hi + 1..] == s[hi + 1..];
    assert multiset(s) == multiset(s[..lo]) + multiset(s[lo..hi + 1]) + multiset(s[hi + 1..]);
    assert multiset(s') == multiset(s[..lo]) + multiset(s'[lo..hi + 1]) + multiset(s[hi + 1..]);
    assert multiset(s'[lo..hi + 1]) == multiset(s') - multiset(s[..lo]) - multiset(s[hi + 1..]);
    assert multiset(s[lo..hi + 1]) == multiset(s) - multiset(s[..lo]) - multiset(s[hi + 1..]);
  }

  /** A boundary outside the open interior `(lo, hi]` of a rearranged stretch
      still splits the sequence: the elements on either side of it are the
      same ones as before, only perhaps in other slots. */
  lemma KeepsSplits<K>(cmp: (K, K) -> int, s: seq<K>, s': seq<K>, lo: int, hi: int)
    requires 0 <= lo <= hi + 1 <= |s| && Rearranged(s, s', lo, hi)
    ensures forall k :: (k <= lo || hi < k) && SplitAt(cmp, s, k) ==> SplitAt(cmp, s', k)
  {
    StretchMultiset(s, s', lo, hi);
    forall k | (k <= lo || hi < k) && SplitAt(cmp, s, k)
      ensures SplitAt(cmp, s', k)
    {
      forall i, j | 0 <= i < k <= j < |s'|
        ensures Le(cmp, s'[i], s'[j])
      {
        var i0 := Origin(s, s', lo, hi, i);
        var j0 := Origin(s, s', lo, hi, j);
        assert s[i0] == s'[i] && s[j0] == s'[j];
      }
    }
  }

  /** A slot of the rearranged sequence holds the value of some slot of the
      original: the same slot outside the stretch, a slot of the stretch inside it. */
  lemma Origin<K>(s: seq<K>, s': seq<K>, lo: int, hi: int, i: int) returns (i0: int)
    requires |s'| == |s| && 0 <= lo <= hi + 1 <= |s| && 0 <= i < |s|
    requires multiset(s'[lo..hi + 1]) == multiset(s[lo..hi + 1])
    requires forall k :: 0 <= k < |s| && !(lo <= k <= hi) ==> s'[k] == s[k]
    ensures 0 <= i0 < |s| && s[i0] == s'[i]
    ensures lo <= i <= hi ==> lo <= i0 <= hi
    ensures !(lo <= i <= hi) ==> i0 == i
  {
    if lo <= i <= hi {
      assert s'[i] == s'[lo..hi + 1][i - lo];
      assert s'[i] in multiset(s[lo..hi + 1]);
      var t :| 0 <= t < hi + 1 - lo && s[lo..hi + 1][t] == s'[i];
      i0 := lo + t;
    } else {
      i0 := i;
    }
  }
}
