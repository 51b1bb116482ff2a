/**
 * The strategies against each other: on sorted inputs there is only one
 * sorted arrangement of all the values, so every strategy that returns a
 * sorted permutation returns what the balanced merge returns.
 */
module Agreement {

  import opened SortedSeqs
  import opened BalancedMerge

  /** Any sorted permutation of the inputs is the balanced merge's result. */
  lemma SortedPermutationIsMergeTree(arrs: seq<seq<int>>, out: seq<int>)
    requires |arrs| >= 1 && AllSorted(arrs)
    requires Sorted(out) && multiset(out) == multiset(Flatten(arrs))
    ensures out == MergeTree(arrs, 0, |arrs| - 1)
  {
    MergeTreeCorrect(arrs);
    SortedUnique(out, MergeTree(arrs, 0, |arrs| - 1));
  }
}
