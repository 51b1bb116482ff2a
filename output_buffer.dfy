/**
 * Writing a merge's values one by one into consecutive slots of an
 * output array, and what the array holds once they are all written.
 */
module OutputBuffers {

  /** The slots of `output` from `start` on hold `done`. */
  predicate Written(output: array<int>, start: nat, done: seq<int>)
    reads output
  {
    start + |done| <= output.Length && forall k :: 0 <= k < |done| ==> output[start + k] == done[k]
  }

  /** Writes `x` to slot `at`, the one after the values already written, and changes no other slot. */
  method Put(output: array<int>, start: nat, ghost done: seq<int>, at: nat, x: int)
    requires Written(output, start, done) && at == start + |done| < output.Length
    modifies output
    ensures output[at] == x && Written(output, start, done + [x])
    ensures forall k :: 0 <= k < output.Length && k != at ==> output[k] == old(output[k])
  {
    output[at] := x;
  }

  /** The written slots, read back as a slice, are exactly the written values. */
  lemma WrittenSlice(output: array<int>, start: nat, done: seq<int>)
    requires Written(output, start, done)
    ensures output[start .. start + |done|] == done
    ensures start == 0 && |done| == output.Length ==> output[..] == done
  {
  }

  /** Copies all of `src` into `dest` from `destPos` on, and touches nothing else. */
  method CopyInto(src: seq<int>, dest: array<int>, destPos: nat)
    requires destPos + |src| <= dest.Length
    modifies dest
    ensures dest[destPos .. destPos + |src|] == src
    ensures forall k :: 0 <= k < destPos || destPos + |src| <= k < dest.Length ==> dest[k] == old(dest[k])
  {
    for k := 0 to |src|
      invariant forall p :: 0 <= p < k ==> dest[destPos + p] == src[p]
      invariant forall p :: 0 <= p < destPos || destPos + k <= p < dest.Length ==> dest[p] == old(dest[p])
    {
      dest[destPos + k] := src[k];
    }
  }
}
