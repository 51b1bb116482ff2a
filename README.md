# Merging K sorted arrays, modelled in Dafny

The program merges K sorted `int` arrays into one sorted array in four ways:

- **mergeSameLength** (balanced merge): for K arrays of one common length N.
  It lays each input into its own N-wide slot of the output, then merges
  adjacent slots in place, pairwise up a divide-and-conquer recursion
  (`divide` and `merge`).
- **merge1** (linear-scan merge): keeps one cursor per input. `nextElement1`
  scans all the cursors for the smallest unread value at every step.
- **copySort**: copies all the inputs end to end into one buffer and sorts it.
- **merge2** (heap merge): keeps a priority queue of `PQNode`s, one per input
  that still has unread values. It repeatedly removes the smallest node and
  queues the next value of that node's input.

The Dafny project models each of these in the source's own imperative form:
- The outputs are arrays written index by index.
- The cursor array of `merge1` is an `array<int>` updated in place.
- The priority queue is a class whose methods change its contents.

Each method is proved against a specification:
- For the balanced merge, the two-pointer merge function `MergeSeqs` and
  the recursion shape `MergeTree`.
- For `merge1` and `merge2`, the shared "minimal-head emission" invariant in
  `Frontiers`.
- For `copySort`, "sorted and a permutation".

A null collection of arrays is `Option.None`, and every strategy returns
`null` for it, as the code does.

Modules:

| file | module | what it holds |
|---|---|---|
| `wrappers.dfy` | `Wrappers` | `Option` |
| `pq_node.dfy` | `PQNodes` | `PQNode`, its comparison, 32-bit wrap-around |
| `priority_queue.dfy` | `PriorityQueues` | the minimum-first queue |
| `sorted_seqs.dfy` | `SortedSeqs` | `Sorted`, `Flatten`, `TotalLength`, the length loop |
| `output_buffer.dfy` | `OutputBuffers` | writing values into consecutive output slots, array copy |
| `frontier.dfy` | `Frontiers` | consumed prefixes and the emission invariant |
| `balanced_merge.dfy` | `BalancedMerge` | `merge`, `divide`, `mergeSameLength` |
| `linear_scan_merge.dfy` | `LinearScanMerge` | `nextElement1`, `merge1` |
| `copy_sort.dfy` | `CopySort` | `copySort` |
| `heap_merge.dfy` | `HeapMerge` | `merge2` |
| `agreement.dfy` | `Agreement` | the strategies against each other |

## Model

| member | source | states |
|---|---|---|
| PQNodes.PQNode.CompareTo | MergeKSortedArrays.java:30-33 | the result is negative, zero or positive exactly when this node's value is below, equal to or above the other's (the evidently intended ordering) |
| PQNodes.PQNode.CompareToAsWritten | MergeKSortedArrays.java:31-33 | the comparison as written: a 32-bit `int` result, equal to the difference of the values whenever that difference fits in 32 bits |
| PQNodes.Wrap32 | MergeKSortedArrays.java:32 | Java `int` subtraction: the result is a 32-bit value congruent to the exact one modulo 2^32, and equal to it when it fits |
| PQNodes.CompareToOverflows | MergeKSortedArrays.java:32 | for values `Integer.MIN_VALUE` and 1, the subtraction reports MIN_VALUE as the larger, while the intended comparison reports it as smaller |
| PriorityQueues.PriorityQueue.constructor | MergeKSortedArrays.java:273 | a new queue is empty |
| PriorityQueues.PriorityQueue.IsEmpty | MergeKSortedArrays.java:292 | the queue reports empty exactly when it holds no node |
| PriorityQueues.PriorityQueue.Add | MergeKSortedArrays.java:286 | adding puts exactly one more copy of the node in the queue |
| PriorityQueues.PriorityQueue.Remove | MergeKSortedArrays.java:295 | removing from a non-empty queue returns one of its nodes that no other node orders below under CompareTo, and takes exactly that node out |
| PriorityQueues.HasLeast | MergeKSortedArrays.java:295 | every non-empty bag of nodes holds a node of least value, so `remove` always has something to return |
| SortedSeqs.TotalLength | MergeKSortedArrays.java:203-205 | the sum of the input lengths is the length of their concatenation |
| SortedSeqs.SumLengths | MergeKSortedArrays.java:241-243 | the length loop (as in merge1 and copySort) returns the sum of the input lengths, which is the length of their concatenation |
| SortedSeqs.SortedUnique | MergeKSortedArrays.java:254 | two sorted sequences that hold the same values are equal, so a sorted output is determined by its values |
| OutputBuffers.Put | MergeKSortedArrays.java:298 | writing the next value to the next output slot extends the written prefix by that value and changes no other slot |
| OutputBuffers.WrittenSlice | MergeKSortedArrays.java:289-306 | once all values are written, the output array holds exactly the written sequence |
| OutputBuffers.CopyInto | MergeKSortedArrays.java:249 | copying an array into the output from `destPos` writes it there and leaves every other slot unchanged |
| Frontiers.EmitStart | MergeKSortedArrays.java:208 | with every cursor at position 0, nothing has been consumed and the empty output is in step |
| Frontiers.EmitMin | MergeKSortedArrays.java:292-303 | emitting a minimal unread value and consuming it keeps the output equal, as a bag, to the consumed values, and sorted with nothing unread below its last value when the inputs are sorted |
| Frontiers.EmitRemaining | MergeKSortedArrays.java:292 | the output is never longer than all inputs together; it is exactly that long iff every input is read to its end, and then it is a permutation of all the inputs |
| BalancedMerge.MergeSeqs | MergeKSortedArrays.java:88-98 | the two-pointer merge of two runs: the left value goes first only when strictly smaller, so on equal values the right one is taken first; once one run is used up the rest of the other follows; its properties are the lemmas below |
| BalancedMerge.MergeSeqsPermutation | MergeKSortedArrays.java:88-98 | the two-pointer merge keeps every value of both runs and nothing else, and its length is the sum of theirs |
| BalancedMerge.MergeSeqsSorted | MergeKSortedArrays.java:88-98 | two-pointer merging of sorted runs gives a sorted result |
| BalancedMerge.MergeSeqsAtLeast | MergeKSortedArrays.java:88-98 | a lower bound of both runs bounds their merge |
| BalancedMerge.Mid | MergeKSortedArrays.java:62 | the split point `(left + right) / 2` lies in `[left, right]`, and below `right` when the range has two or more inputs |
| BalancedMerge.MergeTree | MergeKSortedArrays.java:103-126 | the shape of the recursion: a single input is itself, and inputs `left..right` are the two-pointer merge of the results for `left..mid` and `mid+1..right`, with `mid = (left+right)/2`; its properties are the lemmas below |
| BalancedMerge.MergeTreeLeaf | MergeKSortedArrays.java:106-113 | the recursion over a single input yields that input |
| BalancedMerge.MergeTreePermutation | MergeKSortedArrays.java:103-126 | the recursion over inputs `left..right` keeps exactly the values of those inputs |
| BalancedMerge.MergeTreeSorted | MergeKSortedArrays.java:103-126 | the recursion over sorted inputs yields a sorted result |
| BalancedMerge.MergeTreeCorrect | MergeKSortedArrays.java:135-151 | over all inputs, the recursion yields a permutation of their concatenation, and a sorted one when every input is sorted |
| BalancedMerge.MergeRegionSortedPermutation | MergeKSortedArrays.java:58-98 | merging two adjacent regions in place leaves the region holding the same values, and sorted when both halves were sorted |
| BalancedMerge.MergeSeqsTakeLeft | MergeKSortedArrays.java:89-92 | when the left value is taken, it is the next value of the pending merge, and the rest is the merge pending after it |
| BalancedMerge.MergeSeqsTakeRight | MergeKSortedArrays.java:93-97 | when the right value is taken (right first on equal values), it is the next value of the pending merge, and the rest is the merge pending after it |
| BalancedMerge.CopyRegion | MergeKSortedArrays.java:69-78 | the temporary array is fresh and holds a copy of the region |
| BalancedMerge.MergeStep | MergeKSortedArrays.java:89-97 | one pass of the two-pointer loop writes the next value of the merge to the next slot; exactly one cursor advances, by one, and the other stays; no other slot changes |
| BalancedMerge.MergeRuns | MergeKSortedArrays.java:81-98 | the two-pointer loop writes exactly the merge of the two runs from `leftIn` on, and nothing outside that region changes |
| BalancedMerge.MergeRegions | MergeKSortedArrays.java:58-98 | after the copy and the two-pointer pass, the region holds the merge of its two original halves, and the rest of the array is unchanged |
| BalancedMerge.Merge | MergeKSortedArrays.java:58-98 | merges slots `[left*N, (mid+1)*N)` and `[(mid+1)*N, (right+1)*N)` in place, touching no index outside `[left*N, (right+1)*N)` |
| BalancedMerge.Divide | MergeKSortedArrays.java:103-126 | region `[left*N, (right+1)*N)` ends up holding the recursion's result for inputs `left..right`; the rest of the output is unchanged |
| BalancedMerge.MergeSameLength | MergeKSortedArrays.java:135-151 | null for a null collection; otherwise a fresh array of length K*N holding the recursion's result, which MergeTreeCorrect shows to be a sorted permutation |
| LinearScanMerge.NextElement1 | MergeKSortedArrays.java:160-188 | returns the lowest-index input holding the smallest unread value, and that value's position; moves only that cursor, to the next position or to -1 at the end; with nothing unread it answers (0, 0) |
| LinearScanMerge.ScanAsWritten | MergeKSortedArrays.java:163-179 | the scan as written: a result below `Integer.MAX_VALUE` names an unread value, and otherwise the scan falls back to input 0, position 0 |
| LinearScanMerge.ScanAsWrittenMin | MergeKSortedArrays.java:163-179 | the scan as written returns a value no larger than any unread value it has passed, and strictly smaller than those before its pick whenever that value is below `Integer.MAX_VALUE` |
| LinearScanMerge.ScanAsWrittenAgrees | MergeKSortedArrays.java:163-179 | whenever the smallest unread value is below `Integer.MAX_VALUE`, the scan as written picks the same input, value and position as the corrected scan |
| LinearScanMerge.ScanAsWrittenPicksExhausted | MergeKSortedArrays.java:163-184 | when the only unread value is `Integer.MAX_VALUE`, the scan as written returns input 0, which is already exhausted, instead of the input that holds the value |
| LinearScanMerge.TracksActive | MergeKSortedArrays.java:167-171 | while values remain, some cursor is not -1 |
| LinearScanMerge.TracksPick | MergeKSortedArrays.java:181-184 | the scan's pick is a minimal unread value, and the updated cursors encode having consumed it |
| LinearScanMerge.TracksStart | MergeKSortedArrays.java:208 | cursors all at 0 over non-empty inputs mean nothing is consumed |
| LinearScanMerge.ScanStep | MergeKSortedArrays.java:213-217 | one pass of the loop picks the lowest-index input `ai` holding a minimal unread value, emits that value, advances only that input's read position by one, moves cursor `ai` to its next position or to -1 at the end, leaves every other cursor alone, and keeps the cursors and the emitted values in step |
| LinearScanMerge.ScanPass | MergeKSortedArrays.java:211-218 | one pass followed by the write to `output[i]`: one more value emitted, written in order, cursors still in step |
| LinearScanMerge.ScanLoop | MergeKSortedArrays.java:211-218 | after `sortLen` passes the output is a permutation of all inputs, and sorted when they are sorted |
| LinearScanMerge.Merge1 | MergeKSortedArrays.java:196-222 | null for a null collection; otherwise a fresh array of the summed length that is a permutation of all inputs, and sorted when they are sorted |
| CopySort.CopyAll | MergeKSortedArrays.java:248-251 | after the copy loop, the buffer is the concatenation of the inputs in order |
| CopySort.TotalLengthPrefix | MergeKSortedArrays.java:248-250 | the inputs copied so far fit in the buffer |
| CopySort.SortedButSwap | MergeKSortedArrays.java:254 | one swap of the insertion step keeps the prefix sorted except at the moved value |
| CopySort.SwapPermutation | MergeKSortedArrays.java:254 | exchanging two values keeps the multiset |
| CopySort.Insert | MergeKSortedArrays.java:254 | inserting the next value into a sorted prefix yields a sorted, longer prefix, keeps the array's values and leaves every value after it in place |
| CopySort.Sort | MergeKSortedArrays.java:254 | the sort leaves the array sorted and a permutation of what it held |
| CopySort.CopySort | MergeKSortedArrays.java:234-258 | null for a null collection; otherwise a fresh array of the summed length that is a sorted permutation of all inputs, whether or not they are sorted |
| HeapMerge.FrontierGrow | MergeKSortedArrays.java:276-287 | queueing the first node of each non-empty input, and skipping empty ones, keeps one node per input seen so far that has values |
| HeapMerge.FrontierEmpty | MergeKSortedArrays.java:292 | the queue is empty exactly when every input is read to its end |
| HeapMerge.FrontierMin | MergeKSortedArrays.java:295 | the removed node names the next unread value of its input, and that value is minimal among all unread values |
| HeapMerge.FrontierAdvance | MergeKSortedArrays.java:300-302 | after removal, queueing the input's next value when `ei < length - 1` keeps at most one queued node per input, that input's next unread value |
| HeapMerge.Fill | MergeKSortedArrays.java:275-287 | the initial loop returns the summed length and queues exactly one node per non-empty input, at its position 0 |
| HeapMerge.HeapStep | MergeKSortedArrays.java:294-302 | one pass removes a node of the queue naming the next unread value of its input, which is minimal among all unread values; emits that value; advances only that input's read position by one; the queue becomes the old queue minus the node, plus the input's next node exactly when `ei < length - 1` |
| HeapMerge.HeapPass | MergeKSortedArrays.java:294-302 | one pass followed by the write to `output[count]`: one more value emitted, written in order, the queue still one node per input with values left |
| HeapMerge.HeapLoop | MergeKSortedArrays.java:292-303 | the loop writes exactly `len` values: a permutation of all inputs, sorted when they are sorted |
| HeapMerge.Merge2 | MergeKSortedArrays.java:266-307 | null for a null collection; otherwise a fresh array of the summed length that is a permutation of all inputs, and sorted when they are sorted |
| Agreement.SortedPermutationIsMergeTree | MergeKSortedArrays.java:234-258 | on sorted inputs, any sorted permutation of all inputs (copySort's result, and merge1's and merge2's) equals the balanced merge's result |

## Left out

- `main` and `toString` are not modelled. They are test scaffolding, console I/O and text formatting.
- The static field `N` is a parameter `n` of `Merge` and `Divide`. `MergeSameLength` sets it from the first input, as the code does.
- The `int` values of the arrays are unbounded integers. The only arithmetic on them is in `compareTo`, where the 32-bit wrap-around is modelled explicitly.
- Length sums (`sortLen`, `len`, `N * k`) are unbounded. The code would overflow `int` for inputs totalling more than 2^31 - 1 values.
- A `null` array inside the collection is not modelled. The code fails on it with a null-pointer exception.
- `java.util.PriorityQueue` is modelled by its contract only: a bag with add, empty test and remove-least. The binary heap layout is not modelled.
- Which of several equal-valued nodes `remove` returns is left open. Equal nodes differ only in position, and the emitted values are the same either way.
- `Arrays.sort` is modelled by an insertion sort with the same contract: sorted and a permutation. A sorted permutation is unique (`SortedUnique`), so the result is the same array.
- Merge1: requires every input to be non-empty unless the total length is 0. The code starts every cursor at 0, so an empty input with values elsewhere makes `nextElement1` read past its end and throw `ArrayIndexOutOfBoundsException`. The model requires what the code needs to avoid that out-of-bounds read and does not model the exception.
- MergeSameLength: requires K ≥ 1 and all inputs of the first one's length. The code reads `arrs[0]` and indexes every input up to N. Its ensures states the result as the recursion's value; the sorted-permutation property is proved about that value in `MergeTreeCorrect` rather than repeated in the method's ensures.
- A null collection yields `null`, as the code returns it, and the model follows the code.
- NextElement1: requires the cursor array to have one cursor per input, and at least one input, as `merge1` guarantees. The code loops over the cursor array and then writes cursor 0 even when nothing is unread.

## Findings

| source | as written | input that shows it | evidently intended | confidence | as-written member | corrected member |
|---|---|---|---|---|---|---|
| MergeKSortedArrays.java:32 | `compareTo` returns `this.val - node.val` in 32-bit arithmetic, which wraps around | nodes with values `Integer.MIN_VALUE` and 1: the difference wraps to 2147483647, so the queue treats MIN_VALUE as larger and `merge2` of `{{MIN_VALUE},{1}}` emits 1 first | the sign of the comparison of the two values (`Integer.compare`) | not executed | PQNodes.CompareToOverflows | PQNodes.PQNode.CompareTo |
| MergeKSortedArrays.java:163-184 | the scan starts from `Integer.MAX_VALUE` and only a strictly smaller value is selected | `merge1` of `{{1},{2147483647}}`: in the second step the only unread value is MAX_VALUE, nothing is selected, and input 0 (exhausted) position 0 is returned, so the output is `{1, 1}` | select the smallest unread value even when it equals MAX_VALUE (a "found" flag) | not executed | LinearScanMerge.ScanAsWrittenPicksExhausted | LinearScanMerge.NextElement1 |
