/**
 * Divide-and-conquer merge of K sorted inputs of one common length `n`:
 * each input is laid into its own n-wide slot of one output buffer, then
 * adjacent sorted regions are merged in place, pairwise up the recursion.
 * The source keeps `n` in a static field; here it is a parameter.
 */
module BalancedMerge {

  import opened Wrappers
  import opened SortedSeqs
  import opened OutputBuffers

  // ---- specification ----

  /**
   * The two-pointer merge: the left value goes first only when it is
   * strictly smaller, so on equal values the right one is emitted first.
   */
  function MergeSeqs(a: seq<int>, b: seq<int>): seq<int>
    decreases |a| + |b|
  {
    if b == [] then a
    else if a == [] then b
    else if a[0] < b[0] then [a[0]] + MergeSeqs(a[1..], b)
    else [b[0]] + MergeSeqs(a, b[1..])
  }

  /** The two-pointer merge keeps every value of both inputs, and nothing else. */
  lemma {:induction false} MergeSeqsPermutation(a: seq<int>, b: seq<int>)
    ensures multiset(MergeSeqs(a, b)) == multiset(a) + multiset(b)
    ensures |MergeSeqs(a, b)| == |a| + |b|
    decreases |a| + |b|
  {
    if b != [] && a != [] {
      if a[0] < b[0] {
        MergeSeqsPermutation(a[1..], b);
        assert a == [a[0]] + a[1..];
      } else {
        MergeSeqsPermutation(a, b[1..]);
        assert b == [b[0]] + b[1..];
      }
    }
    assert |multiset(MergeSeqs(a, b))| == |multiset(a) + multiset(b)|;
  }

  /** Every value of `s` is at least `x`. */
  predicate AtLeast(s: seq<int>, x: int) {
    forall k :: 0 <= k < |s| ==> x <= s[k]
  }

  /** A lower bound of both inputs bounds their two-pointer merge. */
  lemma {:induction false} MergeSeqsAtLeast(a: seq<int>, b: seq<int>, x: int)
    requires AtLeast(a, x) && AtLeast(b, x)
    ensures AtLeast(MergeSeqs(a, b), x)
    decreases |a| + |b|
  {
    if b != [] && a != [] {
      if a[0] < b[0] {
        MergeSeqsAtLeast(a[1..], b, x);
      } else {
        MergeSeqsAtLeast(a, b[1..], x);
      }
    }
  }

  /** Two-pointer merging of sorted inputs gives a sorted output. */
  lemma {:induction false} MergeSeqsSorted(a: seq<int>, b: seq<int>)
    requires Sorted(a) && Sorted(b)
    ensures Sorted(MergeSeqs(a, b))
    decreases |a| + |b|
  {
    if b != [] && a != [] {
      if a[0] < b[0] {
        MergeSeqsSorted(a[1..], b);
        MergeSeqsAtLeast(a[1..], b, a[0]);
      } else {
        MergeSeqsSorted(a, b[1..]);
        MergeSeqsAtLeast(a, b[1..], b[0]);
      }
    }
  }

  /** Where the recursion splits inputs `left..right`: the last input of the lower half. */
  function Mid(left: nat, right: nat): (mid: nat)
    requires left <= right
    ensures left <= mid <= right
    ensures left < right ==> mid < right
  {
    (left + right) / 2
  }

  /** The shape of the recursion: inputs `left..right` merged bottom-up. */
  function MergeTree(arrs: seq<seq<int>>, left: nat, right: nat): seq<int>
    requires left <= right < |arrs|
    decreases right - left
  {
    if left == right then arrs[left]
    else
      var mid := Mid(left, right);
      MergeSeqs(MergeTree(arrs, left, mid), MergeTree(arrs, mid + 1, right))
  }

  /** The recursion keeps every value of inputs `left..right`, and nothing else. */
  lemma {:induction false} MergeTreePermutation(arrs: seq<seq<int>>, left: nat, right: nat)
    requires left <= right < |arrs|
    ensures multiset(MergeTree(arrs, left, right)) == multiset(FlattenRange(arrs, left, right + 1))
    decreases right - left
  {
    if left == right {
      MergeTreeLeaf(arrs, left);
    } else {
      var mid := Mid(left, right);
      MergeTreePermutation(arrs, left, mid);
      MergeTreePermutation(arrs, mid + 1, right);
      MergeTreeStep(arrs, left, mid, right);
    }
  }

  /** A single input is its own merge, and its own run. */
  lemma MergeTreeLeaf(arrs: seq<seq<int>>, i: nat)
    requires i < |arrs|
    ensures MergeTree(arrs, i, i) == FlattenRange(arrs, i, i + 1) == arrs[i]
  {
    assert FlattenRange(arrs, i, i + 1) == FlattenRange(arrs, i, i) + arrs[i];
  }

  /** One level of the recursion keeps the values its two halves keep. */
  lemma MergeTreeStep(arrs: seq<seq<int>>, left: nat, mid: nat, right: nat)
    requires left < right < |arrs| && mid == Mid(left, right)
    requires multiset(MergeTree(arrs, left, mid)) == multiset(FlattenRange(arrs, left, mid + 1))
    requires multiset(MergeTree(arrs, mid + 1, right)) == multiset(FlattenRange(arrs, mid + 1, right + 1))
    ensures multiset(MergeTree(arrs, left, right)) == multiset(FlattenRange(arrs, left, right + 1))
  {
    var x, y := MergeTree(arrs, left, mid), MergeTree(arrs, mid + 1, right);
    MergeTreeUnfold(arrs, left, right);
    FlattenRangeSplit(arrs, left, mid + 1, right + 1);
    MergeSeqsOfPermutations(MergeTree(arrs, left, right), x, y,
      FlattenRange(arrs, left, right + 1), FlattenRange(arrs, left, mid + 1), FlattenRange(arrs, mid + 1, right + 1));
  }

  /** One unfolding of the recursion. */
  lemma MergeTreeUnfold(arrs: seq<seq<int>>, left: nat, right: nat)
    requires left < right < |arrs|
    ensures MergeTree(arrs, left, right)
         == MergeSeqs(MergeTree(arrs, left, Mid(left, right)), MergeTree(arrs, Mid(left, right) + 1, right))
  {
  }

  /** Merging permutations of `a` and `b` gives a permutation of `a + b`. */
  lemma MergeSeqsOfPermutations(t: seq<int>, x: seq<int>, y: seq<int>, f: seq<int>, a: seq<int>, b: seq<int>)
    requires t == MergeSeqs(x, y) && f == a + b
    requires multiset(x) == multiset(a) && multiset(y) == multiset(b)
    ensures multiset(t) == multiset(f)
  {
    MergeSeqsPermutation(x, y);
  }

  /**
   * Over all inputs the recursion yields a permutation of their
   * concatenation, and a sorted one when every input is sorted.
   */
  lemma MergeTreeCorrect(arrs: seq<seq<int>>)
    requires |arrs| >= 1
    ensures multiset(MergeTree(arrs, 0, |arrs| - 1)) == multiset(Flatten(arrs))
    ensures AllSorted(arrs) ==> Sorted(MergeTree(arrs, 0, |arrs| - 1))
  {
    MergeTreePermutation(arrs, 0, |arrs| - 1);
    FlattenRangeAll(arrs);
    if AllSorted(arrs) {
      MergeTreeSorted(arrs, 0, |arrs| - 1);
    }
  }

  /** When inputs `left..right` are sorted, the recursion produces a sorted result. */
  lemma {:induction false} MergeTreeSorted(arrs: seq<seq<int>>, left: nat, right: nat)
    requires left <= right < |arrs|
    requires forall i :: left <= i <= right ==> Sorted(arrs[i])
    ensures Sorted(MergeTree(arrs, left, right))
    decreases right - left
  {
    if left < right {
      var mid := Mid(left, right);
      MergeTreeSorted(arrs, left, mid);
      MergeTreeSorted(arrs, mid + 1, right);
      MergeSeqsSorted(MergeTree(arrs, left, mid), MergeTree(arrs, mid + 1, right));
    }
  }

  /** Slots of width `n` are laid out in the order of their inputs. */
  lemma SlotOrder(left: nat, mid: nat, right: nat, n: nat)
    requires left <= mid <= right
    ensures 0 <= left * n <= (mid + 1) * n <= (right + 1) * n
    ensures (mid - left + 1) * n == (mid + 1) * n - left * n
    ensures (right - mid) * n == (right + 1) * n - (mid + 1) * n
  {
  }

  /**
   * One step of the two-pointer pass when the left run supplies the next
   * value: if the merge still pending is the suffix of `merged` from `k`,
   * that value is `merged[k]` and the rest is pending from `k + 1`.
   */
  lemma MergeSeqsTakeLeft(l: seq<int>, r: seq<int>, i: nat, j: nat, merged: seq<int>, k: nat)
    requires i < |l| && j <= |r|
    requires j == |r| || l[i] < r[j]
    requires k <= |merged| && merged[k..] == MergeSeqs(l[i..], r[j..])
    ensures k < |merged| && merged[k] == l[i]
    ensures merged[k + 1..] == MergeSeqs(l[i + 1..], r[j..])
  {
    assert l[i..][1..] == l[i + 1..];
    assert merged[k..] == [l[i]] + MergeSeqs(l[i + 1..], r[j..]);
    assert merged[k..][1..] == merged[k + 1..];
  }

  /** The same step when the right run supplies the next value. */
  lemma MergeSeqsTakeRight(l: seq<int>, r: seq<int>, i: nat, j: nat, merged: seq<int>, k: nat)
    requires i <= |l| && j < |r|
    requires i == |l| || !(l[i] < r[j])
    requires k <= |merged| && merged[k..] == MergeSeqs(l[i..], r[j..])
    ensures k < |merged| && merged[k] == r[j]
    ensures merged[k + 1..] == MergeSeqs(l[i..], r[j + 1..])
  {
    assert r[j..][1..] == r[j + 1..];
    assert merged[k..] == [r[j]] + MergeSeqs(l[i..], r[j + 1..]);
    assert merged[k..][1..] == merged[k + 1..];
  }

  // ---- the in-place algorithm ----

  /** Copies `output[start..start+size)` into a new array. */
  method CopyRegion(output: array<int>, start: nat, size: nat) returns (copy: array<int>)
    requires start + size <= output.Length
    ensures fresh(copy)
    ensures copy[..] == output[start .. start + size]
  {
    copy := new int[size];
    for i := 0 to size
      invariant forall k :: 0 <= k < i ==> copy[k] == output[start + k]
    {
      copy[i] := output[start + i];
    }
  }

  /**
   * The two-pointer state after `|done|` values: `done` is the written
   * prefix of the merge, and the rest of the merge is still pending from
   * cursors `i` and `j`.
   */
  predicate MergeState(output: array<int>, leftIn: nat, l: seq<int>, r: seq<int>, i: nat, j: nat, merged: seq<int>, done: seq<int>)
    reads output
  {
    && i <= |l| && j <= |r| && |done| == i + j
    && |merged| == |l| + |r| && leftIn + |merged| <= output.Length
    && merged[|done|..] == MergeSeqs(l[i..], r[j..])
    && done == merged[..|done|] && Written(output, leftIn, done)
  }

  /**
   * One pass of the two-pointer loop: writes the smaller head (the right
   * one on ties) to the next slot and advances its cursor.
   */
  method MergeStep(output: array<int>, leftIn: nat, leftArr: array<int>, rightArr: array<int>,
                   leftCurr: nat, rightCurr: nat, ghost l: seq<int>, ghost r: seq<int>,
                   ghost merged: seq<int>, ghost done: seq<int>)
    returns (leftCurr': nat, rightCurr': nat, ghost done': seq<int>)
    requires output != leftArr && output != rightArr && leftArr[..] == l && rightArr[..] == r
    requires MergeState(output, leftIn, l, r, leftCurr, rightCurr, merged, done)
    requires leftCurr + rightCurr < |l| + |r|
    modifies output
    ensures MergeState(output, leftIn, l, r, leftCurr', rightCurr', merged, done')
    ensures || (leftCurr' == leftCurr + 1 && rightCurr' == rightCurr)
            || (leftCurr' == leftCurr && rightCurr' == rightCurr + 1)
    ensures forall k :: 0 <= k < output.Length && k != leftIn + |done| ==> output[k] == old(output[k])
  {
    var x;
    leftCurr', rightCurr' := leftCurr, rightCurr;
    if rightCurr == rightArr.Length || (leftCurr != leftArr.Length && leftArr[leftCurr] < rightArr[rightCurr]) {
      MergeSeqsTakeLeft(l, r, leftCurr, rightCurr, merged, |done|);
      x := leftArr[leftCurr];
      leftCurr' := leftCurr + 1;
    } else {
      MergeSeqsTakeRight(l, r, leftCurr, rightCurr, merged, |done|);
      x := rightArr[rightCurr];
      rightCurr' := rightCurr + 1;
    }
    Put(output, leftIn, done, leftIn + leftCurr + rightCurr, x);
    done' := done + [x];
  }

  /**
   * The two-pointer pass: writes the merge of `leftArr` and `rightArr`
   * into `output` from `leftIn` on, leaving every other index alone.
   */
  method MergeRuns(output: array<int>, leftIn: nat, leftArr: array<int>, rightArr: array<int>)
    requires output != leftArr && output != rightArr
    requires leftIn + leftArr.Length + rightArr.Length <= output.Length
    modifies output
    ensures output[leftIn .. leftIn + leftArr.Length + rightArr.Length] == MergeSeqs(leftArr[..], rightArr[..])
    ensures forall k :: 0 <= k < leftIn || leftIn + leftArr.Length + rightArr.Length <= k < output.Length
                     ==> output[k] == old(output[k])
  {
    ghost var l, r := leftArr[..], rightArr[..];
    ghost var merged := MergeSeqs(l, r);
    ghost var done: seq<int> := [];
    MergeSeqsPermutation(l, r);
    var leftSize, rightSize := leftArr.Length, rightArr.Length;
    var leftCurr: nat, rightCurr: nat := 0, 0;
    while leftCurr + rightCurr < leftSize + rightSize
      invariant leftArr[..] == l && rightArr[..] == r
      invariant MergeState(output, leftIn, l, r, leftCurr, rightCurr, merged, done)
      invariant forall k :: 0 <= k < leftIn || leftIn + leftSize + rightSize <= k < output.Length
                         ==> output[k] == old(output[k])
      decreases leftSize + rightSize - leftCurr - rightCurr
    {
      leftCurr, rightCurr, done := MergeStep(output, leftIn, leftArr, rightArr, leftCurr, rightCurr, l, r, merged, done);
    }
    WrittenSlice(output, leftIn, done);
  }

  /**
   * The copy and two-pointer pass of the in-place merge: copies the runs
   * `output[leftIn..leftIn+leftSize)` and `output[rightIn..rightIn+rightSize)`
   * aside and writes their merge back over both.
   */
  method MergeRegions(output: array<int>, leftIn: nat, leftSize: nat, rightIn: nat, rightSize: nat)
    requires leftIn + leftSize == rightIn && rightIn + rightSize <= output.Length
    modifies output
    ensures output[leftIn .. rightIn + rightSize]
         == MergeSeqs(old(output[leftIn .. rightIn]), old(output[rightIn .. rightIn + rightSize]))
    ensures forall i :: 0 <= i < leftIn || rightIn + rightSize <= i < output.Length ==> output[i] == old(output[i])
  {
    var leftArr := CopyRegion(output, leftIn, leftSize);
    var rightArr := CopyRegion(output, rightIn, rightSize);
    MergeRuns(output, leftIn, leftArr, rightArr);
  }

  /**
   * Merges the adjacent regions `[left*n, (mid+1)*n)` and
   * `[(mid+1)*n, (right+1)*n)` of `output` in place, where
   * `mid = (left+right)/2`; no index outside `[left*n, (right+1)*n)` changes.
   */
  method Merge(left: nat, right: nat, n: nat, output: array<int>)
    requires left <= right
    requires (right + 1) * n <= output.Length
    modifies output
    ensures left * n <= (Mid(left, right) + 1) * n <= (right + 1) * n
    ensures output[left * n .. (right + 1) * n]
         == MergeSeqs(old(output[left * n .. (Mid(left, right) + 1) * n]),
                      old(output[(Mid(left, right) + 1) * n .. (right + 1) * n]))
    ensures forall i :: 0 <= i < left * n || (right + 1) * n <= i < output.Length ==> output[i] == old(output[i])
  {
    SlotOrder(left, Mid(left, right), right, n);
    var leftIn := left * n;
    var rightIn := (Mid(left, right) + 1) * n;
    var leftSize := (Mid(left, right) - left + 1) * n;
    var rightSize := (right - Mid(left, right)) * n;
    MergeRegions(output, leftIn, leftSize, rightIn, rightSize);
  }

  /**
   * Merging two adjacent sorted regions in place leaves the whole region
   * sorted and holding exactly the values it held before.
   */
  lemma MergeRegionSortedPermutation(before: seq<int>, after: seq<int>, m: nat)
    requires m <= |before|
    requires after == MergeSeqs(before[..m], before[m..])
    ensures multiset(after) == multiset(before)
    ensures Sorted(before[..m]) && Sorted(before[m..]) ==> Sorted(after)
  {
    MergeSeqsPermutation(before[..m], before[m..]);
    assert before == before[..m] + before[m..];
    if Sorted(before[..m]) && Sorted(before[m..]) {
      MergeSeqsSorted(before[..m], before[m..]);
    }
  }

  /**
   * Lays inputs `left..right` into their slots of `output` and merges them
   * there, touching no index outside `[left*n, (right+1)*n)`.
   */
  method Divide(left: nat, right: nat, n: nat, output: array<int>, arrs: seq<seq<int>>)
    requires left <= right < |arrs|
    requires forall i :: 0 <= i < |arrs| ==> |arrs[i]| == n
    requires (right + 1) * n <= output.Length
    modifies output
    ensures 0 <= left * n <= (right + 1) * n
    ensures output[left * n .. (right + 1) * n] == MergeTree(arrs, left, right)
    ensures forall i :: 0 <= i < left * n || (right + 1) * n <= i < output.Length ==> output[i] == old(output[i])
    decreases right - left
  {
    if left == right {
      SlotOrder(left, left, left, n);
      CopyInto(arrs[left], output, left * n);
      return;
    }
    var mid := Mid(left, right);
    SlotOrder(left, mid, right, n);
    Divide(left, mid, n, output, arrs);
    ghost var lower := output[left * n .. (mid + 1) * n];
    Divide(mid + 1, right, n, output, arrs);
    assert output[left * n .. (mid + 1) * n] == lower;
    MergeTreeUnfold(arrs, left, right);
    Merge(left, right, n, output);
  }

  /**
   * Merges K sorted inputs that all have the length of the first one;
   * a null collection gives a null result.
   */
  method MergeSameLength(arrs: Option<seq<seq<int>>>) returns (output: array?<int>)
    requires arrs.Some? ==> |arrs.value| >= 1
    requires arrs.Some? ==> forall i :: 0 <= i < |arrs.value| ==> |arrs.value[i]| == |arrs.value[0]|
    ensures output == null <==> arrs.None?
    ensures output != null ==> fresh(output)
    ensures output != null ==> output.Length == |arrs.value| * |arrs.value[0]|
    ensures output != null ==> output[..] == MergeTree(arrs.value, 0, |arrs.value| - 1)
  {
    if arrs.None? {
      return null;
    }
    var a := arrs.value;
    var k := |a|;
    var n := |a[0]|;
    output := new int[n * k];
    Divide(0, k - 1, n, output, a);
    assert output[..] == output[0 * n .. (k - 1 + 1) * n];
  }
}
