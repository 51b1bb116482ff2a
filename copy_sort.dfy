/**
 * The copy-and-sort strategy: lay all inputs end to end in one buffer,
 * then sort the buffer. The library sort is modelled by an insertion sort
 * with the same contract.
 */
module CopySort {

  import opened Wrappers
  import opened SortedSeqs
  import opened OutputBuffers

  /** Copies the inputs, in order, into a buffer exactly as long as all of them. */
  method CopyAll(arrs: seq<seq<int>>, output: array<int>)
    requires output.Length == TotalLength(arrs)
    modifies output
    ensures output[..] == Flatten(arrs)
  {
    var destPos := 0;
    for i := 0 to |arrs|
      invariant destPos == TotalLength(arrs[..i]) <= output.Length
      invariant output[..destPos] == Flatten(arrs[..i])
    {
      assert arrs[..i + 1][..i] == arrs[..i];
      TotalLengthPrefix(arrs, i + 1);
      ghost var done := output[..destPos];
      CopyInto(arrs[i], output, destPos);
      assert output[..destPos] == done;
      assert output[..destPos + |arrs[i]|] == output[..destPos] + output[destPos .. destPos + |arrs[i]|];
      destPos := destPos + |arrs[i]|;
    }
    assert arrs[..|arrs|] == arrs;
  }

  /** The inputs before `i` are no longer than all of them. */
  lemma {:induction false} TotalLengthPrefix(arrs: seq<seq<int>>, i: nat)
    requires i <= |arrs|
    ensures TotalLength(arrs[..i]) <= TotalLength(arrs)
    decreases |arrs| - i
  {
    if i < |arrs| {
      TotalLengthPrefix(arrs, i + 1);
      assert arrs[..i + 1][..i] == arrs[..i];
    } else {
      assert arrs[..i] == arrs;
    }
  }

  /** Sorts `a` in place: the result is sorted and holds the same values. */
  method Sort(a: array<int>)
    modifies a
    ensures Sorted(a[..])
    ensures multiset(a[..]) == multiset(old(a[..]))
  {
    for i := 0 to a.Length
      invariant Sorted(a[..i])
      invariant multiset(a[..]) == multiset(old(a[..]))
    {
      Insert(a, i);
    }
    assert a[..a.Length] == a[..];
  }

  /** Moves `a[i]` left into the sorted run `a[..i]`, by swaps. */
  method Insert(a: array<int>, i: nat)
    requires i < a.Length && Sorted(a[..i])
    modifies a
    ensures Sorted(a[..i + 1])
    ensures multiset(a[..]) == multiset(old(a[..]))
    ensures a[i + 1..] == old(a[i + 1..])
  {
    var j := i;
    while j > 0 && a[j - 1] > a[j]
      invariant 0 <= j <= i
      invariant a[i + 1..] == old(a[i + 1..])
      invariant SortedBut(a[..i + 1], j)
      invariant multiset(a[..]) == multiset(old(a[..]))
      decreases j
    {
      ghost var before := a[..];
      SortedButSwap(a[..i + 1], j);
      a[j - 1], a[j] := a[j], a[j - 1];
      SwapPermutation(before, j - 1, j);
      assert a[..] == before[j - 1 := before[j]][j := before[j - 1]];
      assert a[..i + 1] == before[..i + 1][j - 1 := before[j]][j := before[j - 1]];
      j := j - 1;
    }
  }

  /**
   * Swapping the out-of-place value with a larger left neighbour moves
   * the one exception to the ordering one step left.
   */
  lemma SortedButSwap(s: seq<int>, j: nat)
    requires 0 < j < |s| && SortedBut(s, j) && s[j - 1] > s[j]
    ensures SortedBut(s[j - 1 := s[j]][j := s[j - 1]], j - 1)
  {
    var t := s[j - 1 := s[j]][j := s[j - 1]];
    forall p, q | 0 <= p < q < |t| && p != j - 1 && q != j - 1
      ensures t[p] <= t[q]
    {
      if p == j {
        assert s[j - 1] <= s[q];
      } else if q == j {
        assert s[p] <= s[j - 1];
      }
    }
  }

  /** Exchanging two values keeps the multiset. */
  lemma SwapPermutation(s: seq<int>, p: nat, q: nat)
    requires p < q < |s|
    ensures multiset(s[p := s[q]][q := s[p]]) == multiset(s)
  {
  }

  /** Sorted apart from position `j`, which may be below its left neighbour only. */
  predicate SortedBut(s: seq<int>, j: nat) {
    && (forall p, q :: 0 <= p < q < |s| && p != j && q != j ==> s[p] <= s[q])
    && (forall q :: j < q < |s| ==> s[j] <= s[q])
    && (0 < j < |s| - 1 ==> s[j - 1] <= s[j + 1])
  }

  /**
   * Merges inputs of any lengths by copying them into one buffer and
   * sorting it; the result is sorted whether or not the inputs are.
   */
  method CopySort(arrs: Option<seq<seq<int>>>) returns (output: array?<int>)
    ensures output == null <==> arrs.None?
    ensures output != null ==> fresh(output) && output.Length == TotalLength(arrs.value)
    ensures output != null ==> multiset(output[..]) == multiset(Flatten(arrs.value))
    ensures output != null ==> Sorted(output[..])
  {
    if arrs.None? {
      return null;
    }
    var a := arrs.value;
    var len := SumLengths(a);
    output := new int[len];
    CopyAll(a, output);
    Sort(output);
  }
}
