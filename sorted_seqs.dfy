/**
 * The contract the four merge strategies share: sortedness of a sequence,
 * the inputs laid end to end, their total length, and the prefixes of the
 * inputs that a k-way merge has consumed so far.
 */
module SortedSeqs {

  /** Non-decreasing under the natural order of integers. */
  predicate Sorted(s: seq<int>) {
    forall i, j :: 0 <= i < j < |s| ==> s[i] <= s[j]
  }

  /** Every input sequence is sorted. */
  predicate AllSorted(ss: seq<seq<int>>) {
    forall i :: 0 <= i < |ss| ==> Sorted(ss[i])
  }

  /** The input sequences concatenated in source order. */
  function Flatten(ss: seq<seq<int>>): seq<int> {
    if ss == [] then [] else Flatten(ss[..|ss| - 1]) + ss[|ss| - 1]
  }

  /** The sum of the input lengths, as the source's length loops compute it. */
  function TotalLength(ss: seq<seq<int>>): (n: nat)
    ensures n == |Flatten(ss)|
  {
    if ss == [] then 0 else TotalLength(ss[..|ss| - 1]) + |ss[|ss| - 1]|
  }

  /** Appending one value to one input adds exactly that value to the concatenation. */
  lemma {:induction false} FlattenExtend(ss: seq<seq<int>>, j: nat, x: int)
    requires j < |ss|
    ensures multiset(Flatten(ss[j := ss[j] + [x]])) == multiset(Flatten(ss)) + multiset{x}
    decreases |ss|
  {
    var ss' := ss[j := ss[j] + [x]];
    var last := |ss| - 1;
    if j == last {
      assert ss'[..last] == ss[..last];
    } else {
      assert ss'[..last] == ss[..last][j := ss[j] + [x]];
      FlattenExtend(ss[..last], j, x);
    }
  }

  /** A collection of empty sequences concatenates to the empty sequence. */
  lemma {:induction false} FlattenEmpties(ss: seq<seq<int>>)
    requires forall j :: 0 <= j < |ss| ==> ss[j] == []
    ensures Flatten(ss) == []
    decreases |ss|
  {
    if ss != [] {
      FlattenEmpties(ss[..|ss| - 1]);
    }
  }

  /** Shortening some inputs shortens the total; strictly if any one is strictly shorter. */
  lemma {:induction false} TotalLengthMono(ss: seq<seq<int>>, ts: seq<seq<int>>)
    requires |ss| == |ts|
    requires forall j :: 0 <= j < |ss| ==> |ss[j]| <= |ts[j]|
    ensures TotalLength(ss) <= TotalLength(ts)
    ensures (exists j :: 0 <= j < |ss| && |ss[j]| < |ts[j]|) ==> TotalLength(ss) < TotalLength(ts)
    decreases |ss|
  {
    if ss != [] {
      var last := |ss| - 1;
      TotalLengthMono(ss[..last], ts[..last]);
      if exists j :: 0 <= j < |ss| && |ss[j]| < |ts[j]| {
        var j :| 0 <= j < |ss| && |ss[j]| < |ts[j]|;
        if j < last {
          assert |ss[..last][j]| < |ts[..last][j]|;
        }
      }
    }
  }

  /**
   * Two sorted sequences holding the same multiset are equal: on integers a
   * merge's output is determined by its inputs, whatever the tie-break.
   */
  lemma {:induction false} SortedUnique(a: seq<int>, b: seq<int>)
    requires Sorted(a) && Sorted(b)
    requires multiset(a) == multiset(b)
    ensures a == b
    decreases |a|
  {
    assert |a| == |multiset(a)| == |multiset(b)| == |b|;
    if a != [] {
      SortedHeadMin(a, b[0]);
      SortedHeadMin(b, a[0]);
      var x := a[0];
      assert b[0] == x;
      MultisetTail(a);
      MultisetTail(b);
      SortedUnique(a[1..], b[1..]);
      assert a == [x] + a[1..];
    }
  }

  /** Dropping the head removes exactly one copy of it. */
  lemma MultisetTail(s: seq<int>)
    requires s != []
    ensures multiset(s[1..]) == multiset(s) - multiset{s[0]}
  {
    assert s == [s[0]] + s[1..];
  }

  /** The head of a sorted sequence is at most any value in it. */
  lemma SortedHeadMin(s: seq<int>, x: int)
    requires Sorted(s) && x in multiset(s)
    ensures s[0] <= x
  {
    var p :| 0 <= p < |s| && s[p] == x;
  }

  /** Inputs `lo..hi-1` concatenated in source order. */
  function FlattenRange(ss: seq<seq<int>>, lo: nat, hi: nat): seq<int>
    requires lo <= hi <= |ss|
    decreases hi - lo
  {
    if lo == hi then [] else FlattenRange(ss, lo, hi - 1) + ss[hi - 1]
  }

  /** A run of inputs concatenates to the concatenation of its two halves. */
  lemma {:induction false} FlattenRangeSplit(ss: seq<seq<int>>, lo: nat, mid: nat, hi: nat)
    requires lo <= mid <= hi <= |ss|
    ensures FlattenRange(ss, lo, hi) == FlattenRange(ss, lo, mid) + FlattenRange(ss, mid, hi)
    decreases hi - mid
  {
    if mid < hi {
      FlattenRangeSplit(ss, lo, mid, hi - 1);
    }
  }

  /** A run of inputs depends only on the inputs inside it. */
  lemma {:induction false} FlattenRangeFrame(ss: seq<seq<int>>, ts: seq<seq<int>>, lo: nat, hi: nat)
    requires lo <= hi <= |ss| && hi <= |ts|
    requires forall i :: lo <= i < hi ==> ss[i] == ts[i]
    ensures FlattenRange(ss, lo, hi) == FlattenRange(ts, lo, hi)
    decreases hi - lo
  {
    if lo < hi {
      FlattenRangeFrame(ss, ts, lo, hi - 1);
    }
  }

  /** The run of all inputs is their concatenation. */
  lemma {:induction false} FlattenRangeAll(ss: seq<seq<int>>)
    ensures FlattenRange(ss, 0, |ss|) == Flatten(ss)
    decreases |ss|
  {
    if ss != [] {
      var n := |ss| - 1;
      FlattenRangeAll(ss[..n]);
      FlattenRangeFrame(ss, ss[..n], 0, n);
    }
  }

  /** The length loop at the head of three of the merges: the sum of the input lengths. */
  method SumLengths(arrs: seq<seq<int>>) returns (len: nat)
    ensures len == TotalLength(arrs)
    ensures len == |Flatten(arrs)|
  {
    len := 0;
    for i := 0 to |arrs|
      invariant len == TotalLength(arrs[..i])
    {
      assert arrs[..i + 1][..i] == arrs[..i];
      len := len + |arrs[i]|;
    }
    assert arrs[..|arrs|] == arrs;
  }
}
