/**
 * What a k-way merge has done after consuming a prefix of every input:
 * the values it has emitted, and the heads (next unread values) it still
 * has to choose from. The linear-scan merge and the heap merge both emit
 * one minimal head per step, and both are proved through this module.
 */
module Frontiers {

  import opened SortedSeqs


  /** `pos[j]` counts how many values of input `j` have been consumed. */
  predicate ValidPositions(arrs: seq<seq<int>>, pos: seq<nat>) {
    |pos| == |arrs| && forall j :: 0 <= j < |pos| ==> pos[j] <= |arrs[j]|
  }

  /** The consumed prefix of every input. */
  function Prefixes(arrs: seq<seq<int>>, pos: seq<nat>): (ps: seq<seq<int>>)
    requires ValidPositions(arrs, pos)
    ensures |ps| == |arrs|
    ensures forall j :: 0 <= j < |ps| ==> ps[j] == arrs[j][..pos[j]]
  {
    seq(|arrs|, j requires 0 <= j < |arrs| => arrs[j][..pos[j]])
  }

  /** No value consumed yet. */
  function Zeros(k: nat): (z: seq<nat>)
    ensures |z| == k && forall j :: 0 <= j < k ==> z[j] == 0
  {
    seq(k, _ => 0)
  }

  /** Before anything is consumed, the consumed prefixes concatenate to nothing. */
  lemma PrefixesStart(arrs: seq<seq<int>>)
    ensures ValidPositions(arrs, Zeros(|arrs|))
    ensures Flatten(Prefixes(arrs, Zeros(|arrs|))) == []
  {
    FlattenEmpties(Prefixes(arrs, Zeros(|arrs|)));
  }

  /** Consuming the next value of input `j` adds that value to what has been emitted. */
  lemma PrefixesAdvance(arrs: seq<seq<int>>, pos: seq<nat>, j: nat)
    requires ValidPositions(arrs, pos)
    requires j < |arrs| && pos[j] < |arrs[j]|
    ensures ValidPositions(arrs, pos[j := pos[j] + 1])
    ensures multiset(Flatten(Prefixes(arrs, pos[j := pos[j] + 1])))
         == multiset(Flatten(Prefixes(arrs, pos))) + multiset{arrs[j][pos[j]]}
    ensures TotalLength(Prefixes(arrs, pos[j := pos[j] + 1])) == TotalLength(Prefixes(arrs, pos)) + 1
  {
    var ps := Prefixes(arrs, pos);
    var x := arrs[j][pos[j]];
    assert arrs[j][..pos[j] + 1] == ps[j] + [x];
    assert Prefixes(arrs, pos[j := pos[j] + 1]) == ps[j := ps[j] + [x]];
    FlattenExtend(ps, j, x);
    assert |multiset(Flatten(ps[j := ps[j] + [x]]))| == |multiset(Flatten(ps))| + 1;
  }

  /** Until every input is fully consumed, fewer values have been emitted than there are. */
  lemma PrefixesShort(arrs: seq<seq<int>>, pos: seq<nat>)
    requires ValidPositions(arrs, pos)
    ensures TotalLength(Prefixes(arrs, pos)) <= TotalLength(arrs)
    ensures (exists j :: 0 <= j < |arrs| && pos[j] < |arrs[j]|)
        ==> TotalLength(Prefixes(arrs, pos)) < TotalLength(arrs)
  {
    var ps := Prefixes(arrs, pos);
    if exists j :: 0 <= j < |arrs| && pos[j] < |arrs[j]| {
      var j :| 0 <= j < |arrs| && pos[j] < |arrs[j]|;
      assert |ps[j]| < |arrs[j]|;
    }
    TotalLengthMono(ps, arrs);
  }

  /** Once every input is fully consumed, the consumed prefixes are the inputs. */
  lemma PrefixesFull(arrs: seq<seq<int>>, pos: seq<nat>)
    requires ValidPositions(arrs, pos)
    requires forall j :: 0 <= j < |arrs| ==> pos[j] == |arrs[j]|
    ensures Prefixes(arrs, pos) == arrs
  {
    var ps := Prefixes(arrs, pos);
    forall j | 0 <= j < |arrs|
      ensures ps[j] == arrs[j]
    {
      assert arrs[j][..pos[j]] == arrs[j];
    }
  }

  /** Every input has been read to its end. */
  predicate Exhausted(arrs: seq<seq<int>>, pos: seq<nat>) {
    |pos| == |arrs| && forall j :: 0 <= j < |arrs| ==> pos[j] == |arrs[j]|
  }

  /** `x` is at most every head still unread. */
  predicate HeadsAtLeast(arrs: seq<seq<int>>, pos: seq<nat>, x: int) {
    |pos| == |arrs| && forall j :: 0 <= j < |arrs| && pos[j] < |arrs[j]| ==> x <= arrs[j][pos[j]]
  }

  /** Input `j` has a head, and no other head is smaller. */
  predicate IsMinHead(arrs: seq<seq<int>>, pos: seq<nat>, j: nat) {
    |pos| == |arrs| && j < |arrs| && pos[j] < |arrs[j]| && HeadsAtLeast(arrs, pos, arrs[j][pos[j]])
  }

  /**
   * `out` is what has been emitted after consuming `pos`: exactly the
   * consumed values, and, when every input is sorted, in sorted order with
   * nothing unread below the last of them.
   */
  predicate Emitted(arrs: seq<seq<int>>, pos: seq<nat>, out: seq<int>) {
    && ValidPositions(arrs, pos)
    && |out| == TotalLength(Prefixes(arrs, pos))
    && multiset(out) == multiset(Flatten(Prefixes(arrs, pos)))
    && (AllSorted(arrs) ==> Sorted(out) && (out != [] ==> HeadsAtLeast(arrs, pos, out[|out| - 1])))
  }

  /**
   * One emission step: `x` is the minimal head of input `j` at `pos`, and
   * `pos'` is `pos` with exactly that head consumed.
   */
  predicate MinHeadStep(arrs: seq<seq<int>>, pos: seq<nat>, j: nat, x: int, pos': seq<nat>) {
    IsMinHead(arrs, pos, j) && x == arrs[j][pos[j]] && pos' == pos[j := pos[j] + 1]
  }

  /** Nothing consumed, nothing emitted. */
  lemma EmitStart(arrs: seq<seq<int>>)
    ensures ValidPositions(arrs, Zeros(|arrs|))
    ensures Emitted(arrs, Zeros(|arrs|), [])
  {
    PrefixesStart(arrs);
  }

  /** Emitting a minimal head and consuming it keeps the emitted values in step. */
  lemma EmitMin(arrs: seq<seq<int>>, pos: seq<nat>, out: seq<int>, j: nat)
    requires Emitted(arrs, pos, out) && IsMinHead(arrs, pos, j)
    ensures Emitted(arrs, pos[j := pos[j] + 1], out + [arrs[j][pos[j]]])
  {
    var x := arrs[j][pos[j]];
    PrefixesAdvance(arrs, pos, j);
    assert multiset(out + [x]) == multiset(out) + multiset{x};
    if AllSorted(arrs) {
      EmitMinOrder(arrs, pos, out, j);
    }
  }

  /** The order half of `EmitMin`. */
  lemma EmitMinOrder(arrs: seq<seq<int>>, pos: seq<nat>, out: seq<int>, j: nat)
    requires ValidPositions(arrs, pos) && AllSorted(arrs) && IsMinHead(arrs, pos, j)
    requires Sorted(out) && (out != [] ==> HeadsAtLeast(arrs, pos, out[|out| - 1]))
    ensures ValidPositions(arrs, pos[j := pos[j] + 1])
    ensures Sorted(out + [arrs[j][pos[j]]])
    ensures HeadsAtLeast(arrs, pos[j := pos[j] + 1], arrs[j][pos[j]])
  {
    var x := arrs[j][pos[j]];
    var pos' := pos[j := pos[j] + 1];
    forall m | 0 <= m < |arrs| && pos'[m] < |arrs[m]|
      ensures x <= arrs[m][pos'[m]]
    {
      if m == j {
        assert Sorted(arrs[j]);
      }
    }
  }

  /**
   * Values remain to be emitted exactly while some input has a head; once
   * none has, the emitted values are a permutation of all the inputs.
   */
  lemma EmitRemaining(arrs: seq<seq<int>>, pos: seq<nat>, out: seq<int>)
    requires Emitted(arrs, pos, out)
    ensures |out| <= TotalLength(arrs)
    ensures |out| == TotalLength(arrs) <==> Exhausted(arrs, pos)
    ensures Exhausted(arrs, pos) ==> multiset(out) == multiset(Flatten(arrs))
  {
    PrefixesShort(arrs, pos);
    if Exhausted(arrs, pos) {
      PrefixesFull(arrs, pos);
    } else {
      var j :| 0 <= j < |arrs| && pos[j] != |arrs[j]|;
      assert pos[j] < |arrs[j]|;
    }
  }
}
