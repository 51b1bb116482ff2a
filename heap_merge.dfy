/**
 * The heap merge: a priority queue holds, for every input that still has
 * unread values, one node for its next unread value; the smallest node is
 * removed, emitted and replaced by its input's following value.
 */
module HeapMerge {

  import opened Wrappers
  import opened SortedSeqs
  import opened Frontiers
  import opened OutputBuffers
  import opened PQNodes
  import opened PriorityQueues

  /**
   * The queue contents `q` for consumed positions `pos`: every node is the
   * head of its input, at most once, and every input before `upto` that
   * still has a head has its node in the queue.
   */
  predicate Frontier(arrs: seq<seq<int>>, pos: seq<nat>, q: multiset<PQNode>, upto: nat) {
    && ValidPositions(arrs, pos) && upto <= |arrs|
    && (forall m :: m in q ==>
          && 0 <= m.ai < upto && pos[m.ai] < |arrs[m.ai]|
          && m == PQNode(m.ai, pos[m.ai], arrs[m.ai][pos[m.ai]]) && q[m] == 1)
    && (forall j :: 0 <= j < upto && pos[j] < |arrs[j]| ==> PQNode(j, pos[j], arrs[j][pos[j]]) in q)
  }

  /** Looking at one more input adds its first node, unless it is empty. */
  lemma FrontierGrow(arrs: seq<seq<int>>, q: multiset<PQNode>, i: nat)
    requires Frontier(arrs, Zeros(|arrs|), q, i) && i < |arrs|
    ensures arrs[i] == [] ==> Frontier(arrs, Zeros(|arrs|), q, i + 1)
    ensures arrs[i] != [] ==> Frontier(arrs, Zeros(|arrs|), q + multiset{PQNode(i, 0, arrs[i][0])}, i + 1)
  {
  }

  /** The queue is empty exactly when every input is read to its end. */
  lemma FrontierEmpty(arrs: seq<seq<int>>, pos: seq<nat>, q: multiset<PQNode>)
    requires Frontier(arrs, pos, q, |arrs|)
    ensures q == multiset{} <==> Exhausted(arrs, pos)
  {
    if q != multiset{} {
      var m :| m in q;
      assert pos[m.ai] < |arrs[m.ai]|;
    }
    if !Exhausted(arrs, pos) {
      var j :| 0 <= j < |arrs| && pos[j] != |arrs[j]|;
      assert PQNode(j, pos[j], arrs[j][pos[j]]) in q;
    }
  }

  /** A node no other node orders below is the head of its input, and a minimal head. */
  lemma FrontierMin(arrs: seq<seq<int>>, pos: seq<nat>, q: multiset<PQNode>, n: PQNode)
    requires Frontier(arrs, pos, q, |arrs|) && n in q
    requires forall m :: m in q ==> n.CompareTo(m) <= 0
    ensures 0 <= n.ai < |arrs| && n.ei == pos[n.ai] && n.val == arrs[n.ai][n.ei]
    ensures IsMinHead(arrs, pos, n.ai)
  {
    forall j | 0 <= j < |arrs| && pos[j] < |arrs[j]|
      ensures n.val <= arrs[j][pos[j]]
    {
      assert n.CompareTo(PQNode(j, pos[j], arrs[j][pos[j]])) <= 0;
    }
  }

  /**
   * Consuming the head in node `n` and queueing its input's next value,
   * if it has one, keeps one node per input with a head.
   */
  lemma FrontierAdvance(arrs: seq<seq<int>>, pos: seq<nat>, q: multiset<PQNode>, n: PQNode)
    requires Frontier(arrs, pos, q, |arrs|) && n in q
    ensures 0 <= n.ai < |arrs| && n.ei == pos[n.ai] < |arrs[n.ai]|
    ensures
      var pos' := pos[n.ai := n.ei + 1];
      var rest := q - multiset{n};
      && (n.ei < |arrs[n.ai]| - 1 ==>
            Frontier(arrs, pos', rest + multiset{PQNode(n.ai, n.ei + 1, arrs[n.ai][n.ei + 1])}, |arrs|))
      && (n.ei >= |arrs[n.ai]| - 1 ==> Frontier(arrs, pos', rest, |arrs|))
  {
    var pos' := pos[n.ai := n.ei + 1];
    var rest := q - multiset{n};
    forall m | m in rest
      ensures m.ai != n.ai
    {
      if m.ai == n.ai {
        assert false;
      }
    }
  }

  /**
   * One pass of the merge loop: remove a smallest node, queue the next
   * value of its input if there is one, and return the removed value.
   */
  method HeapStep(pq: PriorityQueue, arrs: seq<seq<int>>, ghost pos: seq<nat>, ghost emitted: seq<int>)
    returns (x: int, node: PQNode, ghost pos': seq<nat>)
    requires Emitted(arrs, pos, emitted) && Frontier(arrs, pos, pq.nodes, |arrs|)
    requires !pq.IsEmpty()
    modifies pq
    ensures |emitted| < TotalLength(arrs)
    ensures node in old(pq.nodes) && node == PQNode(node.ai, pos[node.ai], x)
    ensures MinHeadStep(arrs, pos, node.ai, x, pos')
    ensures pq.nodes == old(pq.nodes) - multiset{node}
              + (if node.ei < |arrs[node.ai]| - 1 then multiset{PQNode(node.ai, node.ei + 1, arrs[node.ai][node.ei + 1])}
                 else multiset{})
    ensures Emitted(arrs, pos', emitted + [x]) && Frontier(arrs, pos', pq.nodes, |arrs|)
  {
    FrontierEmpty(arrs, pos, pq.nodes);
    EmitRemaining(arrs, pos, emitted);
    ghost var q := pq.nodes;
    node := pq.Remove();
    FrontierMin(arrs, pos, q, node);
    FrontierAdvance(arrs, pos, q, node);
    x := node.val;
    EmitMin(arrs, pos, emitted, node.ai);
    pos' := pos[node.ai := node.ei + 1];
    if node.ei < |arrs[node.ai]| - 1 {
      pq.Add(PQNode(node.ai, node.ei + 1, arrs[node.ai][node.ei + 1]));
    }
  }

  /** One pass of the merge loop with its output write: the removed value goes to slot `count`. */
  method HeapPass(pq: PriorityQueue, arrs: seq<seq<int>>, output: array<int>, count: nat,
                  ghost pos: seq<nat>, ghost emitted: seq<int>)
    returns (x: int, node: PQNode, ghost pos': seq<nat>, ghost emitted': seq<int>)
    requires output.Length == TotalLength(arrs)
    requires Emitted(arrs, pos, emitted) && Frontier(arrs, pos, pq.nodes, |arrs|) && !pq.IsEmpty()
    requires count == |emitted| && Written(output, 0, emitted)
    modifies pq, output
    ensures node in old(pq.nodes) && MinHeadStep(arrs, pos, node.ai, x, pos')
    ensures emitted' == emitted + [x]
    ensures forall k :: 0 <= k < output.Length && k != count ==> output[k] == old(output[k])
    ensures Emitted(arrs, pos', emitted') && Frontier(arrs, pos', pq.nodes, |arrs|)
    ensures |emitted'| == count + 1 && Written(output, 0, emitted') && output[count] == x
  {
    x, node, pos' := HeapStep(pq, arrs, pos, emitted);
    Put(output, 0, emitted, count, x);
    emitted' := emitted + [x];
  }

  /**
   * The merge loop: until the queue is empty, write each removed value to
   * the next output position. It writes exactly `output.Length` values.
   */
  method HeapLoop(pq: PriorityQueue, arrs: seq<seq<int>>, output: array<int>) returns (count: nat)
    requires output.Length == TotalLength(arrs)
    requires Frontier(arrs, Zeros(|arrs|), pq.nodes, |arrs|)
    modifies pq, output
    ensures count == output.Length
    ensures multiset(output[..]) == multiset(Flatten(arrs))
    ensures AllSorted(arrs) ==> Sorted(output[..])
  {
    ghost var pos := Zeros(|arrs|);
    ghost var emitted: seq<int> := [];
    EmitStart(arrs);
    count := 0;
    while !pq.IsEmpty()
      invariant Emitted(arrs, pos, emitted) && Frontier(arrs, pos, pq.nodes, |arrs|)
      invariant count == |emitted| && Written(output, 0, emitted)
      decreases output.Length - count
    {
      var x, node;
      x, node, pos, emitted := HeapPass(pq, arrs, output, count, pos, emitted);
      count := count + 1;
    }
    FrontierEmpty(arrs, pos, pq.nodes);
    EmitRemaining(arrs, pos, emitted);
    WrittenSlice(output, 0, emitted);
  }

  /**
   * Queues the first node of every non-empty input and returns the total
   * number of values.
   */
  method Fill(pq: PriorityQueue, a: seq<seq<int>>) returns (len: nat)
    requires pq.nodes == multiset{}
    modifies pq
    ensures len == TotalLength(a)
    ensures Frontier(a, Zeros(|a|), pq.nodes, |a|)
  {
    len := 0;
    for i := 0 to |a|
      invariant len == TotalLength(a[..i])
      invariant Frontier(a, Zeros(|a|), pq.nodes, i)
    {
      assert a[..i + 1][..i] == a[..i];
      FrontierGrow(a, pq.nodes, i);
      if |a[i]| == 0 {
        continue;
      }
      len := len + |a[i]|;
      pq.Add(PQNode(i, 0, a[i][0]));
    }
    assert a[..|a|] == a;
  }

  /**
   * Merges inputs of any lengths, empty ones included, through a priority
   * queue of one node per input.
   */
  method Merge2(arrs: Option<seq<seq<int>>>) returns (output: array?<int>)
    ensures output == null <==> arrs.None?
    ensures output != null ==> fresh(output) && output.Length == TotalLength(arrs.value)
    ensures output != null ==> multiset(output[..]) == multiset(Flatten(arrs.value))
    ensures output != null && AllSorted(arrs.value) ==> Sorted(output[..])
  {
    if arrs.None? {
      return null;
    }
    var a := arrs.value;
    var pq := new PriorityQueue();
    var len := Fill(pq, a);
    output := new int[len];
    var count := HeapLoop(pq, a, output);
  }
}
