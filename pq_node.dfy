/**
 * The heap merge's queue entry: which input it came from, where in that
 * input, and the value, ordered by the value alone.
 */
module PQNodes {

  const IntMin: int := -0x8000_0000
  const IntMax: int := 0x7fff_ffff

  predicate IsInt32(x: int) {
    IntMin <= x <= IntMax
  }

  /** Java's `int` arithmetic: the two's-complement representative of `x`. */
  function Wrap32(x: int): (r: int)
    ensures IsInt32(r)
    ensures (r - x) % 0x1_0000_0000 == 0
    ensures IsInt32(x) ==> r == x
  {
    (x - IntMin) % 0x1_0000_0000 + IntMin
  }

  datatype PQNode = PQNode(ai: int, ei: int, val: int) {

    /**
     * The ordering the queue uses: negative, zero or positive as this
     * node's value is below, equal to or above the other's. Node positions
     * play no part, so equal values are unordered.
     */
    function CompareTo(node: PQNode): (r: int)
      ensures r < 0 <==> val < node.val
      ensures r == 0 <==> val == node.val
      ensures r > 0 <==> val > node.val
    {
      if val < node.val then -1 else if val == node.val then 0 else 1
    }

    /** The comparison as the source writes it: a 32-bit subtraction of the values. */
    function CompareToAsWritten(node: PQNode): (r: int)
      requires IsInt32(val) && IsInt32(node.val)
      ensures IsInt32(r)
      ensures IsInt32(val - node.val) ==> r == val - node.val
    {
      Wrap32(val - node.val)
    }
  }

  /**
   * The subtraction wraps around: the smallest `int` compares as greater
   * than 1, so a queue ordered this way can hand out 1 before it.
   */
  lemma CompareToOverflows()
    ensures PQNode(0, 0, IntMin).val < PQNode(1, 0, 1).val
    ensures PQNode(0, 0, IntMin).CompareToAsWritten(PQNode(1, 0, 1)) > 0
    ensures PQNode(0, 0, IntMin).CompareTo(PQNode(1, 0, 1)) < 0
  {
    assert PQNode(0, 0, IntMin).CompareToAsWritten(PQNode(1, 0, 1)) == IntMax;
  }
}
