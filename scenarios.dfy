/**
 * The graph of the sequencing scenario in the repository's pipeline tests:
 * four nodes, with node1 and node2 both feeding node4 and node4 feeding
 * node3.  The lemmas below pin down exactly which execution orders `run`
 * may use for it.
 */
module Scenarios {
  import opened Values
  import opened Digraph
  import opened TopoSort

  const SequenceNodes: set<NodeName> := {"node1", "node2", "node3", "node4"}
  const SequenceEdges: set<Edge> := {("node1", "node4"), ("node2", "node4"), ("node4", "node3")}

  /** The position of `v` in an order that contains it. */
  function IndexOf(o: seq<NodeName>, v: NodeName): (k: nat)
    requires v in o
    ensures k < |o| && o[k] == v
  {
    if o[0] == v then 0 else 1 + IndexOf(o[1..], v)
  }

  /**
   * The scenario's graph has exactly two execution orders: node1 and node2
   * in either order, then node4, then node3.
   */
  lemma SequenceOrders(o: seq<NodeName>)
    ensures IsTopologicalOrder(o, SequenceNodes, SequenceEdges) <==>
      o == ["node1", "node2", "node4", "node3"] || o == ["node2", "node1", "node4", "node3"]
  {
    if IsTopologicalOrder(o, SequenceNodes, SequenceEdges) {
      OnlyTwoOrders(o);
    } else {
      BothOrdersValid();
    }
  }

  /** Any execution order of the scenario is one of the two. */
  lemma OnlyTwoOrders(o: seq<NodeName>)
    requires IsTopologicalOrder(o, SequenceNodes, SequenceEdges)
    ensures o == ["node1", "node2", "node4", "node3"] || o == ["node2", "node1", "node4", "node3"]
  {
    DistinctCard(o);
    assert Elements(o) == SequenceNodes;
    assert |o| == 4;
    var i1, i2, i3, i4 := IndexOf(o, "node1"), IndexOf(o, "node2"), IndexOf(o, "node3"), IndexOf(o, "node4");
    assert i1 < i4 && i2 < i4 && i4 < i3 by {
      assert (o[i1], o[i4]) in SequenceEdges;
      assert (o[i2], o[i4]) in SequenceEdges;
      assert (o[i4], o[i3]) in SequenceEdges;
    }
    assert i1 != i2;
    assert i4 == 2 && i3 == 3;
    if i1 == 0 {
      assert o == ["node1", "node2", "node4", "node3"];
    } else {
      assert o == ["node2", "node1", "node4", "node3"];
    }
  }

  /** Both orders are execution orders of the scenario. */
  lemma BothOrdersValid()
    ensures IsTopologicalOrder(["node1", "node2", "node4", "node3"], SequenceNodes, SequenceEdges)
    ensures IsTopologicalOrder(["node2", "node1", "node4", "node3"], SequenceNodes, SequenceEdges)
  {
    var p := ["node1", "node2", "node4", "node3"];
    var q := ["node2", "node1", "node4", "node3"];
    assert forall v :: v in p <==> v in SequenceNodes;
    assert forall v :: v in q <==> v in SequenceNodes;
  }

  /** The order 1, 4, 2, 3 runs node4 before node2, against the edge from node2 to node4. */
  lemma NodeFourBeforeNodeTwo()
    ensures !IsTopologicalOrder(["node1", "node4", "node2", "node3"], SequenceNodes, SequenceEdges)
  {
    SequenceOrders(["node1", "node4", "node2", "node3"]);
  }
}
