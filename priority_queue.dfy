/**
 * The minimum-first queue the heap merge uses. Only its observable contract
 * is modelled: add a node, test for emptiness, remove a node that no other
 * node orders below under CompareTo. The entries are kept as a bag; how a
 * binary heap arranges them is not part of the model.
 */
module PriorityQueues {

  import opened PQNodes

  class PriorityQueue {

    var nodes: multiset<PQNode>

    constructor ()
      ensures nodes == multiset{}
    {
      nodes := multiset{};
    }

    predicate IsEmpty()
      reads this
      ensures IsEmpty() <==> |nodes| == 0
    {
      nodes == multiset{}
    }

    method Add(node: PQNode)
      modifies this
      ensures nodes == old(nodes) + multiset{node}
    {
      nodes := nodes + multiset{node};
    }

    /**
     * Removes and returns an entry that no other entry orders below; which
     * of several equal values comes out is not specified.
     */
    method Remove() returns (node: PQNode)
      requires nodes != multiset{}
      modifies this
      ensures node in old(nodes)
      ensures forall m :: m in old(nodes) ==> node.CompareTo(m) <= 0
      ensures nodes == old(nodes) - multiset{node}
    {
      HasLeast(nodes);
      node :| node in nodes && forall m :: m in nodes ==> node.val <= m.val;
      nodes := nodes - multiset{node};
    }
  }

  /** A non-empty bag of nodes holds one with the smallest value. */
  lemma {:induction false} HasLeast(s: multiset<PQNode>)
    requires s != multiset{}
    ensures exists n :: n in s && forall m :: m in s ==> n.val <= m.val
    decreases |s|
  {
    var x :| x in s;
    var rest := s - multiset{x};
    assert forall m :: m in s && m != x ==> m in rest;
    if rest == multiset{} {
      assert forall m :: m in s ==> x.val <= m.val;
    } else {
      HasLeast(rest);
      var n :| n in rest && forall m :: m in rest ==> n.val <= m.val;
      if x.val < n.val {
        assert forall m :: m in s ==> x.val <= m.val;
      } else {
        assert n in s && forall m :: m in s ==> n.val <= m.val;
      }
    }
  }
}
