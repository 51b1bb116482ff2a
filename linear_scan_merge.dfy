/**
 * The linear-scan merge: one cursor per input, and at every step a scan
 * over all cursors for the smallest unread value.
 */
module LinearScanMerge {

  import opened Wrappers
  import opened SortedSeqs
  import opened Frontiers
  import opened OutputBuffers
  import opened PQNodes

  /** Cursor `ndex[i]` is -1 once input `i` is read to its end, else the index of its next value. */
  predicate ValidCursors(ndex: seq<int>, arrs: seq<seq<int>>) {
    |ndex| == |arrs| && forall i :: 0 <= i < |arrs| ==> -1 <= ndex[i] < |arrs[i]|
  }

  /** Some input still has an unread value. */
  predicate AnyActive(ndex: seq<int>) {
    exists i :: 0 <= i < |ndex| && ndex[i] >= 0
  }

  /**
   * Input `ai` has an unread value, no other unread value is smaller, and
   * every input before `ai` has a strictly larger one or none at all.
   */
  predicate IsLowestMin(ndex: seq<int>, arrs: seq<seq<int>>, ai: nat)
    requires ValidCursors(ndex, arrs)
  {
    && ai < |arrs| && ndex[ai] >= 0
    && forall i :: 0 <= i < |arrs| && ndex[i] >= 0 ==>
         arrs[ai][ndex[ai]] <= arrs[i][ndex[i]] && (i < ai ==> arrs[ai][ndex[ai]] < arrs[i][ndex[i]])
  }

  /** At most one input is the lowest-index minimum. */
  lemma LowestMinUnique(ndex: seq<int>, arrs: seq<seq<int>>, a: nat, b: nat)
    requires ValidCursors(ndex, arrs)
    requires IsLowestMin(ndex, arrs, a) && IsLowestMin(ndex, arrs, b)
    ensures a == b
  {
  }

  /**
   * Scans the cursors for the lowest-index input holding the smallest
   * unread value, returns that input and position, and moves its cursor
   * past the value (to -1 at the end of the input). With no unread value
   * left it answers input 0, position 0, as the source does.
   */
  method NextElement1(ndex: array<int>, arrs: seq<seq<int>>) returns (ai: nat, ei: int)
    requires ValidCursors(ndex[..], arrs) && |arrs| >= 1
    modifies ndex
    ensures ai < |arrs|
    ensures AnyActive(old(ndex[..])) ==> ei == old(ndex[ai]) && IsLowestMin(old(ndex[..]), arrs, ai)
    ensures !AnyActive(old(ndex[..])) ==> ai == 0 && ei == 0
    ensures ndex[..] == old(ndex[..])[ai := if ei + 1 >= |arrs[ai]| then -1 else ei + 1]
  {
    var val := 0;
    var found := false;
    ai, ei := 0, 0;
    for i := 0 to ndex.Length
      invariant found ==> ai < i && ndex[ai] >= 0 && ei == ndex[ai] && val == arrs[ai][ei]
      invariant found ==> forall j :: 0 <= j < i && ndex[j] >= 0 ==> val <= arrs[j][ndex[j]] && (j < ai ==> val < arrs[j][ndex[j]])
      invariant !found ==> ai == 0 && ei == 0 && forall j :: 0 <= j < i ==> ndex[j] < 0
    {
      if ndex[i] < 0 {
        continue;
      }
      if !found || arrs[i][ndex[i]] < val {
        val := arrs[i][ndex[i]];
        ai, ei := i, ndex[i];
        found := true;
      }
    }
    ndex[ai] := ei + 1;
    if ndex[ai] >= |arrs[ai]| {
      ndex[ai] := -1;
    }
  }

  /**
   * The scan as the source writes it, after its first `n` steps: the
   * running minimum starts at the largest `int` and only a strictly
   * smaller value replaces it. Returns (minimum, input, position).
   */
  function ScanAsWritten(ndex: seq<int>, arrs: seq<seq<int>>, n: nat): (r: (int, nat, int))
    requires ValidCursors(ndex, arrs) && n <= |arrs|
    ensures r.0 <= IntMax
    ensures r.0 < IntMax ==> r.1 < n && ndex[r.1] >= 0 && r.2 == ndex[r.1] && r.0 == arrs[r.1][r.2]
    ensures r.0 == IntMax ==> r.1 == 0 && r.2 == 0
  {
    if n == 0 then (IntMax, 0, 0)
    else
      var r' := ScanAsWritten(ndex, arrs, n - 1);
      if ndex[n - 1] >= 0 && arrs[n - 1][ndex[n - 1]] < r'.0 then (arrs[n - 1][ndex[n - 1]], n - 1, ndex[n - 1])
      else r'
  }

  /**
   * When the only unread value is the largest `int`, the scan as written
   * selects nothing and falls back to input 0, which is already read to
   * its end: the merge then emits input 0's first value a second time.
   */
  lemma ScanAsWrittenPicksExhausted()
    ensures ValidCursors([-1, 0], [[1], [IntMax]])
    ensures IsLowestMin([-1, 0], [[1], [IntMax]], 1)
    ensures ScanAsWritten([-1, 0], [[1], [IntMax]], 2) == (IntMax, 0, 0)
  {
  }

  /**
   * The scan as written keeps the smallest value seen so far, capped at
   * the largest `int`, and replaces it only on a strictly smaller value:
   * every earlier input with an unread value is strictly above the pick.
   */
  lemma {:induction false} ScanAsWrittenMin(ndex: seq<int>, arrs: seq<seq<int>>, n: nat)
    requires ValidCursors(ndex, arrs) && n <= |arrs|
    ensures var r := ScanAsWritten(ndex, arrs, n);
      forall i :: 0 <= i < n && ndex[i] >= 0 ==>
        r.0 <= arrs[i][ndex[i]] && (r.0 < IntMax && i < r.1 ==> r.0 < arrs[i][ndex[i]])
  {
    if n > 0 {
      ScanAsWrittenMin(ndex, arrs, n - 1);
    }
  }

  /**
   * Below the largest `int` the scan as written and the corrected scan
   * agree: both pick the lowest-index input holding the smallest unread
   * value, at its cursor.
   */
  lemma ScanAsWrittenAgrees(ndex: seq<int>, arrs: seq<seq<int>>, ai: nat)
    requires ValidCursors(ndex, arrs) && IsLowestMin(ndex, arrs, ai)
    requires arrs[ai][ndex[ai]] < IntMax
    ensures ScanAsWritten(ndex, arrs, |arrs|) == (arrs[ai][ndex[ai]], ai, ndex[ai])
  {
    var r := ScanAsWritten(ndex, arrs, |arrs|);
    ScanAsWrittenMin(ndex, arrs, |arrs|);
    assert r.0 <= arrs[ai][ndex[ai]];
    assert IsLowestMin(ndex, arrs, r.1);
    LowestMinUnique(ndex, arrs, ai, r.1);
  }

  /** The cursors encode the consumed positions `pos`. */
  predicate Tracks(ndex: seq<int>, arrs: seq<seq<int>>, pos: seq<nat>) {
    && ValidPositions(arrs, pos) && |ndex| == |arrs|
    && forall j :: 0 <= j < |arrs| ==> ndex[j] == (if pos[j] == |arrs[j]| then -1 else pos[j])
  }

  /** While an input has a head, some cursor is active. */
  lemma TracksActive(ndex: seq<int>, arrs: seq<seq<int>>, pos: seq<nat>)
    requires Tracks(ndex, arrs, pos) && !Exhausted(arrs, pos)
    ensures ValidCursors(ndex, arrs) && |arrs| >= 1 && AnyActive(ndex)
  {
    var j :| 0 <= j < |arrs| && pos[j] != |arrs[j]|;
    assert ndex[j] >= 0;
  }

  /** The lowest-index minimum cursor is a minimal head, and moving it consumes that head. */
  lemma TracksPick(ndex: seq<int>, arrs: seq<seq<int>>, pos: seq<nat>, ai: nat, ei: int)
    requires Tracks(ndex, arrs, pos) && ValidCursors(ndex, arrs)
    requires IsLowestMin(ndex, arrs, ai) && ei == ndex[ai]
    ensures ei == pos[ai] && IsMinHead(arrs, pos, ai)
    ensures Tracks(ndex[ai := if ei + 1 >= |arrs[ai]| then -1 else ei + 1], arrs, pos[ai := pos[ai] + 1])
  {
    forall j | 0 <= j < |arrs| && pos[j] < |arrs[j]|
      ensures arrs[ai][pos[ai]] <= arrs[j][pos[j]]
    {
      assert ndex[j] >= 0;
    }
  }

  /**
   * One pass of the merge loop: the scan picks a minimal head, which is
   * consumed and returned as the next value to emit.
   */
  method ScanStep(ndex: array<int>, arrs: seq<seq<int>>, ghost pos: seq<nat>, ghost emitted: seq<int>)
    returns (x: int, ai: nat, ghost pos': seq<nat>)
    requires Emitted(arrs, pos, emitted) && |emitted| < TotalLength(arrs) && Tracks(ndex[..], arrs, pos)
    modifies ndex
    ensures ValidCursors(old(ndex[..]), arrs) && IsLowestMin(old(ndex[..]), arrs, ai)
    ensures MinHeadStep(arrs, pos, ai, x, pos')
    ensures ndex[..] == old(ndex[..])[ai := if pos[ai] + 1 >= |arrs[ai]| then -1 else pos[ai] + 1]
    ensures Emitted(arrs, pos', emitted + [x])
    ensures Tracks(ndex[..], arrs, pos')
  {
    EmitRemaining(arrs, pos, emitted);
    TracksActive(ndex[..], arrs, pos);
    ghost var before := ndex[..];
    var ei;
    ai, ei := NextElement1(ndex, arrs);
    TracksPick(before, arrs, pos, ai, ei);
    x := arrs[ai][ei];
    EmitMin(arrs, pos, emitted, ai);
    pos' := pos[ai := pos[ai] + 1];
  }

  /** One pass of the merge loop with its output write: the picked value goes to slot `i`. */
  method ScanPass(ndex: array<int>, arrs: seq<seq<int>>, output: array<int>, i: nat,
                  ghost pos: seq<nat>, ghost emitted: seq<int>)
    returns (x: int, ai: nat, ghost pos': seq<nat>, ghost emitted': seq<int>)
    requires ndex != output && output.Length == TotalLength(arrs) && i < output.Length
    requires Emitted(arrs, pos, emitted) && Tracks(ndex[..], arrs, pos)
    requires i == |emitted| && Written(output, 0, emitted)
    modifies ndex, output
    ensures IsLowestMin(old(ndex[..]), arrs, ai) && MinHeadStep(arrs, pos, ai, x, pos')
    ensures emitted' == emitted + [x]
    ensures forall k :: 0 <= k < output.Length && k != i ==> output[k] == old(output[k])
    ensures Emitted(arrs, pos', emitted') && Tracks(ndex[..], arrs, pos')
    ensures |emitted'| == i + 1 && Written(output, 0, emitted') && output[i] == x
  {
    x, ai, pos' := ScanStep(ndex, arrs, pos, emitted);
    Put(output, 0, emitted, i, x);
    emitted' := emitted + [x];
  }

  /**
   * The merge loop: `output.Length` scans, each writing the value it
   * selects to the next output position.
   */
  method ScanLoop(ndex: array<int>, arrs: seq<seq<int>>, output: array<int>)
    requires ndex != output && output.Length == TotalLength(arrs)
    requires Tracks(ndex[..], arrs, Zeros(|arrs|))
    modifies ndex, output
    ensures multiset(output[..]) == multiset(Flatten(arrs))
    ensures AllSorted(arrs) ==> Sorted(output[..])
  {
    ghost var pos := Zeros(|arrs|);
    ghost var emitted: seq<int> := [];
    EmitStart(arrs);
    for i := 0 to output.Length
      invariant Emitted(arrs, pos, emitted) && Tracks(ndex[..], arrs, pos)
      invariant |emitted| == i && Written(output, 0, emitted)
    {
      var x, ai;
      x, ai, pos, emitted := ScanPass(ndex, arrs, output, i, pos, emitted);
    }
    EmitRemaining(arrs, pos, emitted);
    WrittenSlice(output, 0, emitted);
  }

  /**
   * Merges inputs of any lengths by repeated scans. The source reads
   * position 0 of every input up front, so each input must be non-empty
   * unless there is nothing to merge at all.
   */
  method Merge1(arrs: Option<seq<seq<int>>>) returns (output: array?<int>)
    requires arrs.Some? ==> TotalLength(arrs.value) == 0 || forall i :: 0 <= i < |arrs.value| ==> arrs.value[i] != []
    ensures output == null <==> arrs.None?
    ensures output != null ==> fresh(output) && output.Length == TotalLength(arrs.value)
    ensures output != null ==> multiset(output[..]) == multiset(Flatten(arrs.value))
    ensures output != null && AllSorted(arrs.value) ==> Sorted(output[..])
  {
    if arrs.None? {
      return null;
    }
    var a := arrs.value;
    var sortLen := SumLengths(a);
    output := new int[sortLen];
    var ndex := new int[|a|](_ => 0);
    if sortLen == 0 {
      assert output[..] == [] == Flatten(a);
      return;
    }
    TracksStart(ndex[..], a);
    ScanLoop(ndex, a, output);
  }

  /** Fresh cursors, all at position 0, encode that nothing is consumed. */
  lemma TracksStart(ndex: seq<int>, arrs: seq<seq<int>>)
    requires |ndex| == |arrs|
    requires forall i :: 0 <= i < |arrs| ==> ndex[i] == 0 && arrs[i] != []
    ensures Tracks(ndex, arrs, Zeros(|arrs|))
  {
  }
}
