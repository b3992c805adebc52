# pdqsort — a Dafny model of the single-header quicksort

`pdqsort.h` is a public-domain, single-header, in-place quicksort for C
arrays of fixed-size elements with a `qsort`-style three-way comparator. It
replaces recursion with a fixed stack of `CHAR_BIT * sizeof(void *)` frames,
picks the midpoint element as pivot, partitions Lomuto-style, pushes the
larger side first so that the smaller one is handled next, and hands sides of
at most `2^shift` elements to an insertion sort. Every element move goes
through the `PDQSORT_SWAP` macro, which a caller may redefine; the example
program redefines it to co-sort a dependent array.

This project models that algorithm on immutable sequences:

- `ordering.dfy` (module `Ordering`): what the comparator promises (`Le`,
  total preorder, antisymmetry), sortedness, and the "boundary `k` splits the
  array" notion the proofs are built on.
- `exchange.dfy` (module `Exchange`): the caller's storage (a primary array
  plus a parallel array), the two swap strategies — the library default, which
  touches the primary array only, and the co-sorting swap of the example —
  the byte-by-byte default swap, and the "rearranged only inside `[lo, hi]`"
  relation every phase preserves.
- `insertion.dfy` (module `Insertion`): the insertion-sort fallback.
- `partition.dfy` (module `Partition`): pivot choice and the partition pass.
- `pdqsort.dfy` (module `Pdqsort`): the threshold switch, the handling of
  the two sides, the explicit stack and the main loop, with the stack-depth
  bound.
- `demo.dfy` (module `Example`): the example program's two sorts.

The comparator is a parameter `cmp: (K, K) -> int`. Permutation, confinement
of every exchange to the current range, termination and the stack bound are
proved for every comparator; sortedness is proved when the comparator is a
total preorder, and "an already sorted array is left as it is" when it is a
total order. The element size, the byte layout and pointer arithmetic are
abstracted to slot indices: one exchange of slots `i` and `j` stands for one
`PDQSORT_SWAP` of the elements at those slots. The threshold shift
(`PDQSORT_INSERTION_SORT_THRESHOLD_SHIFT`) is a parameter of `Sort`; the
platform default 2 is `Pdqsort.DefaultShift`, and 0 (the macOS default)
removes the insertion sort. The macro's `size_t` width is the constant
`Pdqsort.WordBits` (64).

At `pdqsort.h:72` the fallback definition of `PDQSORT_SWAP` names
`DEFAULT_SWAP`, which the header never defines; the macro defined just above
is `PDQSORT_DEFAULT_SWAP`. The model gives the default strategy the meaning of
`PDQSORT_DEFAULT_SWAP`, which is evidently what that line intends.

## Model

| member | source | states |
|---|---|---|
| Ordering.SortedStretchSplits | pdqsort.h:102-110 | Sorting a stretch whose two ends already split the array makes every boundary inside the stretch split it too: a sorted side between placed neighbours is final. |
| Ordering.AllSplitsSorted | pdqsort.h:142-156 | An array split at every boundary is sorted, and in particular every adjacent pair is in order. |
| Ordering.SortedUnique | pdqsort.h:15-17 | Under an antisymmetric comparator two sorted arrangements of the same multiset are equal; the unstable sort is therefore deterministic in its output for total orders. |
| Exchange.Swap | pdqsort.h:50-56 | An exchange puts each of the two slots' values in the other slot, leaves every other slot alone and keeps the multiset of values. |
| Exchange.SwapSelf | pdqsort.h:54-55 | Exchanging a slot with itself changes nothing, the case the header promises works. |
| Exchange.DefaultSwapBytes | pdqsort.h:57-69 | The byte loop exchanges the two `size`-byte blocks exactly (each block receives the other's bytes), leaves every other byte alone, and is the identity when both pointers are the same. |
| Exchange.SwapInvolution | pdqsort.h:50-56 | Exchanging the same two slots twice restores the array. |
| Exchange.SwapBytesIsSlotSwap | pdqsort.h:57-73 | Viewing a buffer of `count` elements of `size` bytes element by element, the byte loop applied to elements `i` and `j` is exactly the exchange of slots `i` and `j`; this justifies modelling every `PDQSORT_SWAP` as a slot exchange. |
| Exchange.BlockAfterSwap | pdqsort.h:63-68 | After the byte loop, a block equal to one of the two swapped blocks holds the other's bytes and a block disjoint from both is unchanged. |
| Exchange.Apply | pdqsort.h:71-73 | One `PDQSORT_SWAP` under a strategy: the primary array is swapped; the default swap leaves the parallel array untouched and the co-sorting swap swaps it at the same two slots. |
| Exchange.CoSortSwapMovesPairs | example.c:23-40 | The co-sorting swap exchanges whole (key, payload) pairs: the pair view of both arrays is swapped exactly like the key array. |
| Exchange.PermutedWithinOne | pdqsort.h:16-18 | A single exchange inside a range is a rearrangement confined to that range: keys outside it stay put, the default swap leaves the dependent array alone, and the co-sorting swap moves whole (key, payload) pairs among the range's slots only, so payloads outside the range stay put too. |
| Exchange.PayloadsStayOutside | example.c:36-38 | A rearrangement confined to a range leaves every dependent-array entry outside the range where it was, under either swap strategy: the co-sorting swap only exchanges payloads at the two slots it exchanges keys at. |
| Exchange.KeepsSplits | pdqsort.h:189-240 | Boundaries outside a rearranged stretch keep splitting the array, so work on one stack frame never spoils what other frames have placed. |
| Insertion.InsertionSort | pdqsort.h:102-110 | The insertion sort of one side exchanges only slots of that side (keys, and under the co-sorting swap whole pairs, outside it stay put), and leaves the side sorted under a total preorder. |
| Insertion.InsertOne | pdqsort.h:91-100 | The inner loop walks one element down a sorted prefix of the side by adjacent exchanges, stopping at the side's left end or below a neighbour not greater than it; only slots of the prefix `[lo, index]` move (keys, and whole pairs under the co-sorting swap), and afterwards the prefix is one longer and still sorted. |
| Insertion.InsertStep | pdqsort.h:95-98 | Exchanging the walked element with a greater left neighbour moves the gap in the sorted order one slot left. |
| Insertion.InsertDone | pdqsort.h:95 | Either exit condition of the inner loop leaves the prefix sorted. |
| Partition.PivotIndex | pdqsort.h:202-203 | The pivot is the lower midpoint of the inclusive range. |
| Partition.PivotByteOffset | pdqsort.h:202-204 | Halving the byte distance between the ends and rounding down to a whole element lands on element `(right - left) / 2`, the slot `PivotIndex` names. |
| Partition.Partition | pdqsort.h:202-223 | After partitioning `[left, right]` the midpoint element sits at `store`, every element the pivot compares greater than lies left of it, every other element right of it, and only slots of the range were exchanged, for keys and, under the co-sorting swap, for whole (key, payload) pairs; no comparator property is needed. |
| Partition.ParkPivot | pdqsort.h:202-204 | The midpoint element is exchanged to the right end of the range. |
| Partition.Scan | pdqsort.h:206-220 | The scan leaves the parked pivot at the right end and returns a cursor with exactly the elements the pivot compares greater than before it and the others from it up to the pivot. |
| Partition.ScanSwap | pdqsort.h:210-217 | Exchanging an element the pivot compares greater than into the store slot and advancing the cursor keeps both classes intact, one slot longer on the left. |
| Partition.PlacePivot | pdqsort.h:222-223 | The final exchange puts the pivot between the two classes. |
| Partition.PartitionSplits | pdqsort.h:147-152 | Under a total preorder, a partitioned range whose ends split the array is split on both sides of its pivot: the pivot is in its final slot. |
| Pdqsort.Decide | pdqsort.h:112-140 | The side switch: with shift 0 a side is pushed exactly when it has two or more elements and never insertion-sorted; otherwise it is insertion-sorted exactly when it has at most `2^shift` elements and pushed exactly when it has more. |
| Pdqsort.SortSide | pdqsort.h:75-140 | A pushed side is left as it is and appended to the stack; any other side leaves the stack alone, is rearranged only inside itself (keys, and whole pairs under the co-sorting swap), and is sorted under a total preorder. |
| Pdqsort.SortStep | pdqsort.h:189-237 | One turn of the loop on a popped range rearranges only that range, keys and co-sorted pairs alike, pushes at most two disjoint sub-ranges of two or more elements that hold fewer elements than the range, with the one popped next the smaller and at most half the range; every boundary of the range outside the pushed ranges splits the array. |
| Pdqsort.SortSides | pdqsort.h:225-237 | Handling the larger side first and the smaller last gives the same guarantees for either order of the sides. |
| Pdqsort.StepSplits | pdqsort.h:222-237 | Under a total preorder, after the partition and both sides, every boundary of the range outside a pushed side splits the array: the pivot and every insertion-sorted side are final. |
| Pdqsort.ChildRangesOf | pdqsort.h:225-237 | Pushing the larger side before the smaller one makes the frame popped next at most half the popped range. |
| Pdqsort.Turn | pdqsort.h:189-240 | One pop-partition-push turn keeps the loop invariant (rearrangement, stack shape, depth bound, splits outside pending frames), strictly reduces the pending elements and keeps the stack within `log2(n) + 1` frames, hence within the 64 frames of the fixed stack. |
| Pdqsort.InitialInvariant | pdqsort.h:185-187 | The single initial frame establishes the loop invariant. |
| Pdqsort.LoopShape | pdqsort.h:189-200 | Replacing the popped frame by its pushed sub-ranges keeps the frames disjoint and inside the array, keeps each frame at most `n / 2^depth` long, and strictly reduces the number of pending elements, so the loop terminates. |
| Pdqsort.LoopSplits | pdqsort.h:189-240 | Every boundary of the array outside the pending frames keeps splitting it across one turn of the loop. |
| Pdqsort.DepthLimit | pdqsort.h:158-163 | A stack of that shape holds at most `log2(n) + 1` frames. |
| Pdqsort.CapacityLimit | pdqsort.h:172-177 | Because an array length fits in a word, that depth never exceeds the `CHAR_BIT * sizeof(void *)` frames of the fixed stack. |
| Pdqsort.InitialStack | pdqsort.h:185-187 | The first frame covers the whole array; an empty array starts with no frame at all. |
| Pdqsort.InitialRightOffset | pdqsort.h:186-187 | The first frame's right end as written, a wrapping `size_t` product that always stays below `2^64`; what it evaluates to is stated by `Pdqsort.InitialRightOffsetCases`. |
| Pdqsort.InitialRightOffsetCases | pdqsort.h:186-187 | That offset is the last element's offset for a non-empty array, and wraps to one element before the buffer for an empty one. |
| Pdqsort.EmptyArrayFrameEscapes | pdqsort.h:186-187 | For an empty array of 8-byte elements the first frame's right end is byte offset `2^64 - 8`, i.e. 8 bytes before the buffer. |
| Pdqsort.Sort | pdqsort.h:165-241 | For any comparator the key array is permuted, the default swap leaves the dependent array unchanged and the co-sorting swap keeps every (key, payload) pair together, and arrays of at most one element are untouched; under a total preorder the keys end sorted, and under a total order an already sorted array is left as it is. The loop body tracks the deepest stack in `peak`; the contract only bounds it (at least 1 for a non-empty array, `2^peak <= 2n`, `peak <= 64`), and that no turn ever exceeds the fixed stack is `Pdqsort.Turn`'s contract. |
| Pdqsort.Finish | pdqsort.h:240 | When the stack runs empty every boundary splits, so the array is sorted. |
| Pdqsort.SmallUnchanged | pdqsort.h:186-187 | Nothing can move in an array of at most one element, under either swap strategy. |
| Example.Run | example.c:42-79 | The example's co-sort of `{0, 1, 10, 5}` leaves both arrays `{0, 1, 5, 10}`; its descending sort with the default swap then gives `{10, 5, 1, 0}` and leaves the dependent array `{0, 1, 5, 10}`. |
| Example.CoSortAscending | example.c:44-51 | Co-sorting an array with an identical dependent copy leaves both arrays equal and ascending. |
| Example.SortDescending | example.c:63-67 | With the default swap restored, sorting with `compd2` reverses the keys and leaves the dependent array alone. |
| Example.Compd2TotalOrder | example.c:14-21 | `compd2` as written is a consistent comparator: "not greater" means `x >= y`, a total order, so the sortedness and uniqueness results apply to it. |
| Example.CompdAgrees | example.c:5-12 | `compd` as written is not a total preorder (a key never precedes itself), yet on two distinct keys it returns exactly what the three-way `Ascending` returns. |
| Example.DiagonalPairs | example.c:45-51 | When both arrays start equal, any rearrangement that keeps the pairs keeps them equal. |

## Left out

- Bytes and pointers: apart from `Exchange.DefaultSwapBytes` and `Partition.PivotByteOffset`, elements are whole slots; element size, alignment and `char *` arithmetic are abstracted away.
- `register` storage classes and the `do { } while (0)` macro wrappers carry no behaviour.
- The threshold is the `int` expression `size << shift`; its overflow for very large element sizes is not modelled (the model compares element counts with `2^shift`).
- Pointers formed outside the array or the stack (`store - size` at `pdqsort.h:77` and `trail -= size` at `pdqsort.h:98`, one element before the array; `store + (size << 1)` at `pdqsort.h:109`, which can lie past one-past-the-end when the pivot is the last element; `--recursion` at `pdqsort.h:200`, which forms `stack - 1` for the comparison at `pdqsort.h:240`) are undefined behaviour in C but are only compared, never dereferenced; the model uses integer indices and a sequence for the stack.
- Running time and the comparison count are not modelled.
- Example.CoSortAscending: sorts with the three-way comparator `Example.Ascending` rather than `compd` of `example.c:5-12`, because `compd` returns 1 for equal keys and so is not a total preorder (`Example.CompdAgrees`), which the sortedness guarantee needs; on distinct keys the two agree exactly (same lemma), and the driver only ever compares two different slots, which hold distinct keys in the example. `compd2` is a total order as written and the descending sort uses it directly.
- Printing in `example.c` and the choice of `double` keys (the demo uses integer keys) are not modelled.
- The preprocessor selection of the threshold shift by platform is replaced by the `shift` parameter of `Pdqsort.Sort`.

## Findings

| source | as written | input that shows it | evidently intended | confidence | as-written member | corrected member |
|---|---|---|---|---|---|---|
| pdqsort.h:186-187 | The first frame's right end is `array + size * (length - 1)` with no check for an empty array; `length - 1` wraps in `size_t`, the frame then ends one element before the buffer, and with `size = 8` the pivot exchange at `pdqsort.h:204` (its `middle` wraps as well) already swaps the 8 bytes before the array with themselves, and the exchange at `pdqsort.h:222-223` (right end with `store == array`) then swaps those bytes with the `size` bytes at the buffer's start. | `length = 0`, `size = 8`: right end at byte offset `2^64 - 8`, i.e. `array - 8` (lemma `Pdqsort.EmptyArrayFrameEscapes`) | An empty array (like one of a single element) is left alone and no frame is pushed. | medium, not executed | Pdqsort.InitialRightOffset | Pdqsort.InitialStack |
