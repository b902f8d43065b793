/**
 * Topological ordering with cycle detection (Kahn's algorithm), replacing the
 * engine's use of networkx's `topological_sort`.  A cycle is reported as
 * "not every node was dequeued"; the lemmas below show that this happens
 * exactly when the nodes contain a directed cycle.
 */
module TopoSort {
  import opened Values
  import opened Digraph

  /** The predecessors of `v` among `nodes`. */
  function Preds(nodes: set<NodeName>, edges: set<Edge>, v: NodeName): set<NodeName> {
    set u | u in nodes && (u, v) in edges
  }

  /** For every edge between two members of `o`, the producer comes first. */
  ghost predicate RespectsEdges(o: seq<NodeName>, edges: set<Edge>) {
    forall i, j :: 0 <= i < |o| && 0 <= j < |o| && (o[i], o[j]) in edges ==> i < j
  }

  /** `o` lists every member of `nodes` exactly once, producers before consumers. */
  ghost predicate IsTopologicalOrder(o: seq<NodeName>, nodes: set<NodeName>, edges: set<Edge>) {
    && NoDuplicates(o)
    && (forall v :: v in o <==> v in nodes)
    && RespectsEdges(o, edges)
  }

  /** A closed directed walk through members of `nodes` (a self-loop included). */
  ghost predicate IsCycle(w: seq<NodeName>, nodes: set<NodeName>, edges: set<Edge>) {
    && |w| > 0
    && (forall k :: 0 <= k < |w| ==> w[k] in nodes)
    && (forall k :: 0 <= k < |w| - 1 ==> (w[k], w[k + 1]) in edges)
    && (w[|w| - 1], w[0]) in edges
  }

  ghost predicate HasCycle(nodes: set<NodeName>, edges: set<Edge>) {
    exists w :: IsCycle(w, nodes, edges)
  }

  /** `w` follows edges in their direction. */
  ghost predicate DirectedWalk(w: seq<NodeName>, edges: set<Edge>) {
    |w| > 0 && forall k :: 0 <= k < |w| - 1 ==> (w[k], w[k + 1]) in edges
  }

  /** `u` reaches `v` along at least one edge (`u` is upstream of `v`; `Upstream(u, u)` puts `u` on a cycle). */
  ghost predicate Upstream(edges: set<Edge>, u: NodeName, v: NodeName) {
    exists w :: |w| >= 2 && w[0] == u && w[|w| - 1] == v && DirectedWalk(w, edges)
  }

  /** Every member of `o` has all its predecessors among `nodes` in `o` as well. */
  ghost predicate PredecessorClosed(o: seq<NodeName>, nodes: set<NodeName>, edges: set<Edge>) {
    forall v :: v in o ==> Preds(nodes, edges, v) <= Elements(o)
  }

  /** No member of `nodes` left out of `o` could join it: each has a predecessor left out too. */
  ghost predicate Maximal(o: seq<NodeName>, nodes: set<NodeName>, edges: set<Edge>) {
    forall v :: v in nodes && v !in o ==> HasPredIn(nodes - Elements(o), edges, v)
  }

  ghost predicate HasPredIn(r: set<NodeName>, edges: set<Edge>, v: NodeName) {
    exists u :: u in r && (u, v) in edges
  }

  /** A nonempty set in which every member has a predecessor inside the set. */
  ghost predicate Stuck(r: set<NodeName>, edges: set<Edge>) {
    r != {} && forall v {:trigger HasPredIn(r, edges, v)} :: v in r ==> HasPredIn(r, edges, v)
  }

  lemma PredecessorIn(r: set<NodeName>, edges: set<Edge>, v: NodeName) returns (u: NodeName)
    requires Stuck(r, edges) && v in r
    ensures u in r && (u, v) in edges
  {
    assert HasPredIn(r, edges, v);
    u :| u in r && (u, v) in edges;
  }

  lemma {:induction false} DistinctCard(s: seq<NodeName>)
    requires NoDuplicates(s)
    ensures |Elements(s)| == |s|
  {
    if s != [] {
      var t := s[..|s| - 1];
      DistinctCard(t);
      assert Elements(s) == Elements(t) + {s[|s| - 1]};
    }
  }

  /** The members of a cycle form a stuck set. */
  lemma CycleIsStuck(w: seq<NodeName>, nodes: set<NodeName>, edges: set<Edge>)
    requires IsCycle(w, nodes, edges)
    ensures Stuck(Elements(w), edges)
    ensures Elements(w) <= nodes
  {
    var r := Elements(w);
    assert w[0] in r;
    forall v | v in r
      ensures HasPredIn(r, edges, v)
    {
      var k :| 0 <= k < |w| && w[k] == v;
      if k == 0 {
        assert w[|w| - 1] in r;
      } else {
        assert w[k - 1] in r && (w[k - 1], w[k]) in edges;
      }
    }
  }

  /**
   * Extends a simple backward walk `p` inside a stuck set until it closes:
   * by the pigeonhole principle this must happen within |r| steps.
   */
  lemma {:induction false} CycleFromWalk(r: set<NodeName>, edges: set<Edge>, p: seq<NodeName>)
    requires Stuck(r, edges)
    requires |p| > 0 && NoDuplicates(p)
    requires forall k :: 0 <= k < |p| ==> p[k] in r
    requires forall k :: 0 <= k < |p| - 1 ==> (p[k], p[k + 1]) in edges
    ensures HasCycle(r, edges)
    decreases |r| - |p|
  {
    assert HasPredIn(r, edges, p[0]);
    var u :| u in r && (u, p[0]) in edges;
    if j :| 0 <= j < |p| && p[j] == u {
      var w := p[..j + 1];
      assert IsCycle(w, r, edges);
    } else {
      DistinctCard(p);
      SubsetCard(Elements(p) + {u}, r);
      assert |Elements(p) + {u}| == |p| + 1;
      var p' := [u] + p;
      assert forall k :: 1 <= k < |p'| ==> p'[k] == p[k - 1];
      CycleFromWalk(r, edges, p');
    }
  }

  /** Every stuck set contains a directed cycle. */
  lemma StuckHasCycle(r: set<NodeName>, edges: set<Edge>)
    requires Stuck(r, edges)
    ensures HasCycle(r, edges)
  {
    var v :| v in r;
    CycleFromWalk(r, edges, [v]);
  }

  /** Some member of `r` occurs in `o` before every other member of `r`. */
  lemma {:induction false} FirstOccurrence(o: seq<NodeName>, r: set<NodeName>) returns (i: nat)
    requires exists v :: v in r && v in o
    ensures i < |o| && o[i] in r
    ensures forall j :: 0 <= j < i ==> o[j] !in r
  {
    if o[0] in r {
      i := 0;
    } else {
      var v :| v in r && v in o;
      assert v in o[1..];
      var i' := FirstOccurrence(o[1..], r);
      i := i' + 1;
    }
  }

  /** No topological order exists for nodes that contain a stuck set. */
  lemma StuckBlocksOrder(r: set<NodeName>, o: seq<NodeName>, nodes: set<NodeName>, edges: set<Edge>)
    requires Stuck(r, edges) && r <= nodes
    ensures !IsTopologicalOrder(o, nodes, edges)
  {
    if IsTopologicalOrder(o, nodes, edges) {
      var v :| v in r;
      assert v in o;
      var i := FirstOccurrence(o, r);
      var u := PredecessorIn(r, edges, o[i]);
    }
  }

  /** A graph with a cycle has no topological order. */
  lemma CycleBlocksOrder(o: seq<NodeName>, nodes: set<NodeName>, edges: set<Edge>)
    ensures HasCycle(nodes, edges) ==> !IsTopologicalOrder(o, nodes, edges)
  {
    if HasCycle(nodes, edges) {
      var w :| IsCycle(w, nodes, edges);
      CycleIsStuck(w, nodes, edges);
      StuckBlocksOrder(Elements(w), o, nodes, edges);
    }
  }

  /** A cycle among a subset of the nodes is a cycle among all of them. */
  lemma CycleInSuperset(small: set<NodeName>, nodes: set<NodeName>, edges: set<Edge>)
    requires small <= nodes && HasCycle(small, edges)
    ensures HasCycle(nodes, edges)
  {
    var w :| IsCycle(w, small, edges);
    assert IsCycle(w, nodes, edges);
  }

  /**
   * Concatenating topological orders of two disjoint node sets, with no edge
   * from the second into the first, gives a topological order of their union.
   */
  lemma AppendOrders(o1: seq<NodeName>, d: set<NodeName>, o2: seq<NodeName>, c: set<NodeName>, edges: set<Edge>)
    requires IsTopologicalOrder(o1, d, edges) && IsTopologicalOrder(o2, c, edges)
    requires d !! c
    requires forall e :: e in edges && e.0 in c ==> e.1 !in d
    ensures IsTopologicalOrder(o1 + o2, d + c, edges)
  {
    var o := o1 + o2;
    forall i, j | 0 <= i < |o| && 0 <= j < |o| && (o[i], o[j]) in edges
      ensures i < j
    {
      if i >= |o1| && j >= |o1| {
        assert o[i] == o2[i - |o1|] && o[j] == o2[j - |o1|];
      } else if j < |o1| {
        assert o[i] == o1[i] && o[j] == o1[j];
      }
    }
    forall i, j | 0 <= i < j < |o|
      ensures o[i] != o[j]
    {
      if i < |o1| && j >= |o1| {
        assert o[i] == o1[i] && o[j] == o2[j - |o1|];
        assert o[i] in d && o[j] in c;
      } else if j < |o1| {
        assert o[i] == o1[i] && o[j] == o1[j];
      } else {
        assert o[i] == o2[i - |o1|] && o[j] == o2[j - |o1|];
      }
    }
    forall v
      ensures v in o <==> v in d + c
    {
      assert v in o <==> v in o1 || v in o2;
    }
  }

  /** A set that is a subset of another is no larger. */
  lemma SubsetCard(a: set<NodeName>, b: set<NodeName>)
    requires a <= b
    ensures |a| <= |b|
  {
    assert b == a + (b - a);
  }

  /**
   * `m` has exactly the keys `nodes`.  Stated with membership in `m` as the
   * only trigger, so that a mere member of `nodes` does not pull in `m`'s
   * entry (and, through it, that member's predecessors).
   */
  ghost predicate KeyedBy(m: map<NodeName, nat>, nodes: set<NodeName>) {
    forall v {:trigger v in m} :: v in m <==> v in nodes
  }

  /**
   * Once `u` is dequeued, each of its successors has exactly one pending
   * predecessor fewer, and every other node keeps its count.
   */
  lemma PendingAfterDequeue(nodes: set<NodeName>, edges: set<Edge>, before: set<NodeName>, u: NodeName, v: NodeName)
    requires u in nodes && u !in before
    ensures |Preds(nodes, edges, v) - before|
         == |Preds(nodes, edges, v) - (before + {u})| + (if (u, v) in edges then 1 else 0)
  {
    var p := Preds(nodes, edges, v);
    if (u, v) in edges {
      assert p - before == (p - (before + {u})) + {u};
    } else {
      assert p - before == p - (before + {u});
    }
  }

  /**
   * The in-degrees after `u` is dequeued: one fewer for each successor of
   * `u`, unchanged for every other node.
   */
  lemma DequeueCounts(nodes: set<NodeName>, edges: set<Edge>, done: set<NodeName>, u: NodeName,
                      successors: set<NodeName>, inDegree: map<NodeName, nat>)
    requires u in nodes && u !in done
    requires successors == set w | w in nodes && (u, w) in edges
    requires KeyedBy(inDegree, nodes)
    requires forall v {:trigger inDegree[v]} :: v in nodes ==> inDegree[v] == |Preds(nodes, edges, v) - done|
    ensures forall v {:trigger inDegree[v]} :: v in successors ==> inDegree[v] > 0
    ensures forall v {:trigger inDegree[v]} :: v in nodes ==>
      inDegree[v] == |Preds(nodes, edges, v) - (done + {u})| + (if v in successors then 1 else 0)
  {
    forall v | v in nodes
      ensures inDegree[v] == |Preds(nodes, edges, v) - (done + {u})| + (if v in successors then 1 else 0)
    {
      PendingAfterDequeue(nodes, edges, done, u, v);
    }
  }

  /**
   * Whatever is upstream of a member of a predecessor-closed order inside a
   * component is in the order too, and earlier.
   */
  lemma {:induction false} UpstreamDequeued(o: seq<NodeName>, c: set<NodeName>, edges: set<Edge>, w: seq<NodeName>)
    requires ClosedUnder(c, edges) && (forall v :: v in o ==> v in c)
    requires RespectsEdges(o, edges) && PredecessorClosed(o, c, edges)
    requires |w| >= 2 && DirectedWalk(w, edges) && w[|w| - 1] in o
    ensures w[0] in o
    ensures forall i, j :: 0 <= i < |o| && 0 <= j < |o| && o[i] == w[0] && o[j] == w[|w| - 1] ==> i < j
    decreases |w|
  {
    var rest := w[1..];
    if |rest| >= 2 {
      assert DirectedWalk(rest, edges) by {
        forall k | 0 <= k < |rest| - 1 ensures (rest[k], rest[k + 1]) in edges {
          assert (w[k + 1], w[k + 2]) in edges;
        }
      }
      UpstreamDequeued(o, c, edges, rest);
    }
    assert w[1] in o;
    assert (w[0], w[1]) in edges;
    assert w[0] in Preds(c, edges, w[1]);
    assert w[0] in Elements(o);
    forall i, j | 0 <= i < |o| && 0 <= j < |o| && o[i] == w[0] && o[j] == w[|w| - 1]
      ensures i < j
    {
      var m :| 0 <= m < |o| && o[m] == w[1];
      assert i < m;
    }
  }

  /** No member of a predecessor-closed order inside a component lies on a cycle. */
  lemma DequeuedAcyclic(o: seq<NodeName>, c: set<NodeName>, edges: set<Edge>, u: NodeName)
    requires ClosedUnder(c, edges) && (forall v :: v in o ==> v in c)
    requires RespectsEdges(o, edges) && PredecessorClosed(o, c, edges)
    requires u in o
    ensures !Upstream(edges, u, u)
  {
    var k :| 0 <= k < |o| && o[k] == u;
    forall w | |w| >= 2 && w[|w| - 1] == u && DirectedWalk(w, edges)
      ensures w[0] != u
    {
      UpstreamDequeued(o, c, edges, w);
    }
  }

  /**
   * When no node outside `done` is free of pending predecessors, the
   * remaining nodes form a stuck set and therefore contain a cycle.
   */
  lemma BlockedRestHasCycle(nodes: set<NodeName>, edges: set<Edge>, done: set<NodeName>)
    requires done < nodes
    requires forall v {:trigger Preds(nodes, edges, v)} :: v in nodes && v !in done ==> |Preds(nodes, edges, v) - done| != 0
    ensures HasCycle(nodes, edges)
  {
    var rest := nodes - done;
    assert nodes == done + rest;
    BlockedRest(nodes, edges, done);
    StuckHasCycle(rest, edges);
    CycleInSuperset(rest, nodes, edges);
  }

  /** A node with a pending predecessor has a predecessor among the pending nodes. */
  lemma BlockedRest(nodes: set<NodeName>, edges: set<Edge>, done: set<NodeName>)
    requires forall v {:trigger Preds(nodes, edges, v)} :: v in nodes && v !in done ==> |Preds(nodes, edges, v) - done| != 0
    ensures forall v :: v in nodes - done ==> HasPredIn(nodes - done, edges, v)
  {
    forall v | v in nodes - done
      ensures HasPredIn(nodes - done, edges, v)
    {
      var pending := Preds(nodes, edges, v) - done;
      assert |pending| != 0;
      var u :| u in pending;
      assert u in nodes - done;
    }
  }

  /**
   * The inner loop of Kahn's algorithm: lowers by one the in-degree of each
   * successor of a dequeued node and makes ready those that reach zero.
   */
  method ReleaseSuccessors(nodes: set<NodeName>, done: set<NodeName>, successors: set<NodeName>,
                           inDegree: map<NodeName, nat>, ready: set<NodeName>)
    returns (inDegree': map<NodeName, nat>, ready': set<NodeName>)
    requires successors <= nodes && successors !! done
    requires ready <= nodes && ready !! done && ready !! successors
    requires KeyedBy(inDegree, nodes)
    requires forall v {:trigger inDegree[v]} :: v in successors ==> inDegree[v] > 0
    requires forall v {:trigger inDegree[v]} :: v in nodes && v !in done && v !in successors ==> (v in ready <==> inDegree[v] == 0)
    ensures ready' <= nodes && ready' !! done
    ensures KeyedBy(inDegree', nodes)
    ensures forall v {:trigger inDegree'[v]} :: v in nodes ==>
      inDegree'[v] == inDegree[v] - (if v in successors then 1 else 0)
    ensures forall v {:trigger inDegree'[v]} :: v in nodes && v !in done ==> (v in ready' <==> inDegree'[v] == 0)
  {
    var pending := successors;
    inDegree', ready' := inDegree, ready;
    while pending != {}
      invariant pending <= successors && pending !! ready'
      invariant ready' <= nodes && ready' !! done
      invariant KeyedBy(inDegree', nodes)
      invariant forall v {:trigger inDegree'[v]} :: v in nodes ==>
        inDegree'[v] == inDegree[v] - (if v in successors && v !in pending then 1 else 0)
      invariant forall v {:trigger inDegree'[v]} :: v in nodes && v !in done && v !in pending ==> (v in ready' <==> inDegree'[v] == 0)
      decreases pending
    {
      var w :| w in pending;
      pending := pending - {w};
      inDegree' := inDegree'[w := inDegree'[w] - 1];
      if inDegree'[w] == 0 {
        ready' := ready' + {w};
      }
    }
  }

  /**
   * The state of Kahn's algorithm after the nodes of `order` (the set
   * `done`) have been dequeued: every in-degree counts the predecessors not
   * yet dequeued, the ready nodes are exactly the pending ones with in-degree
   * zero, and the dequeued prefix respects every edge among its members.
   */
  ghost predicate KahnInvariant(nodes: set<NodeName>, edges: set<Edge>, order: seq<NodeName>, done: set<NodeName>,
                                inDegree: map<NodeName, nat>, ready: set<NodeName>)
  {
    && done <= nodes && ready <= nodes && ready !! done
    && (forall v :: v in order <==> v in done)
    && NoDuplicates(order)
    && KeyedBy(inDegree, nodes)
    && (forall v {:trigger inDegree[v]} :: v in nodes ==> inDegree[v] == |Preds(nodes, edges, v) - done|)
    && (forall v {:trigger inDegree[v]} :: v in nodes && v !in done ==> (v in ready <==> inDegree[v] == 0))
    && (forall v {:trigger Preds(nodes, edges, v)} :: v in done ==> Preds(nodes, edges, v) <= done)
    && (forall i, j {:trigger order[i], order[j]} :: 0 <= j <= i < |order| ==> (order[i], order[j]) !in edges)
  }

  /** A ready node has all its predecessors dequeued and none of its successors. */
  lemma ReadyNode(nodes: set<NodeName>, edges: set<Edge>, order: seq<NodeName>, done: set<NodeName>,
                  inDegree: map<NodeName, nat>, ready: set<NodeName>, u: NodeName)
    requires KahnInvariant(nodes, edges, order, done, inDegree, ready) && u in ready
    ensures Preds(nodes, edges, u) <= done
    ensures forall j :: 0 <= j < |order| ==> (u, order[j]) !in edges
  {
    assert |Preds(nodes, edges, u) - done| == inDegree[u] == 0;
    forall p | p in Preds(nodes, edges, u)
      ensures p in done
    {
      assert p !in Preds(nodes, edges, u) - done;
    }
    forall j | 0 <= j < |order|
      ensures (u, order[j]) !in edges
    {
      assert order[j] in done && u !in Preds(nodes, edges, order[j]);
    }
  }

  /** Dequeuing a ready node leaves the state its successors' release expects. */
  lemma DequeueReady(nodes: set<NodeName>, edges: set<Edge>, order: seq<NodeName>, done: set<NodeName>,
                     inDegree: map<NodeName, nat>, ready: set<NodeName>, u: NodeName, successors: set<NodeName>)
    requires KahnInvariant(nodes, edges, order, done, inDegree, ready) && u in ready
    requires successors == set w | w in nodes && (u, w) in edges
    ensures successors <= nodes && successors !! (done + {u})
    ensures ready - {u} <= nodes && ready - {u} !! (done + {u}) && ready - {u} !! successors
    ensures KeyedBy(inDegree, nodes)
    ensures forall v {:trigger inDegree[v]} :: v in successors ==> inDegree[v] > 0
    ensures forall v {:trigger inDegree[v]} :: v in nodes && v !in done + {u} && v !in successors ==>
      (v in ready - {u} <==> inDegree[v] == 0)
  {
    ReadyNode(nodes, edges, order, done, inDegree, ready, u);
    DequeueCounts(nodes, edges, done, u, successors, inDegree);
    forall v | v in successors
      ensures v !in ready && v !in done
    {
      assert inDegree[v] > 0;
      assert u in Preds(nodes, edges, v);
    }
    assert u !in Preds(nodes, edges, u);
  }

  /** Dequeuing a ready node and releasing its successors keeps the invariant. */
  lemma DequeuePreserves(nodes: set<NodeName>, edges: set<Edge>, order: seq<NodeName>, done: set<NodeName>,
                         inDegree: map<NodeName, nat>, ready: set<NodeName>, u: NodeName,
                         successors: set<NodeName>, inDegree': map<NodeName, nat>, ready': set<NodeName>)
    requires KahnInvariant(nodes, edges, order, done, inDegree, ready) && u in ready
    requires successors == set w | w in nodes && (u, w) in edges
    requires ready' <= nodes && ready' !! (done + {u})
    requires KeyedBy(inDegree', nodes)
    requires forall v {:trigger inDegree'[v]} :: v in nodes ==>
      inDegree'[v] == inDegree[v] - (if v in successors then 1 else 0)
    requires forall v {:trigger inDegree'[v]} :: v in nodes && v !in done + {u} ==> (v in ready' <==> inDegree'[v] == 0)
    ensures KahnInvariant(nodes, edges, order + [u], done + {u}, inDegree', ready')
  {
    ReadyNode(nodes, edges, order, done, inDegree, ready, u);
    DequeueCounts(nodes, edges, done, u, successors, inDegree);
    forall v | v in done + {u}
      ensures Preds(nodes, edges, v) <= done + {u}
    {
      if v != u {
        assert Preds(nodes, edges, v) <= done;
      }
    }
    var order' := order + [u];
    forall i, j | 0 <= j <= i < |order'|
      ensures (order'[i], order'[j]) !in edges
    {
      if i == |order| {
        if j < |order| {
          assert order'[j] == order[j];
        } else {
          assert u !in Preds(nodes, edges, u);
        }
      } else {
        assert order'[i] == order[i] && order'[j] == order[j];
      }
    }
  }

  /**
   * Kahn's algorithm over `nodes`, counting only edges between members of
   * `nodes`.  The dequeued nodes always respect the edges; all of them are
   * dequeued exactly when the nodes contain no cycle, and otherwise the
   * caller reports the cycle ("not every node dequeued").
   */
  method TopologicalSort(nodes: set<NodeName>, edges: set<Edge>) returns (order: seq<NodeName>)
    ensures NoDuplicates(order) && RespectsEdges(order, edges)
    ensures forall v :: v in order ==> v in nodes
    ensures |order| <= |nodes|
    ensures |order| == |nodes| ==> IsTopologicalOrder(order, nodes, edges)
    ensures |order| == |nodes| <==> !HasCycle(nodes, edges)
    ensures PredecessorClosed(order, nodes, edges) && Maximal(order, nodes, edges)
  {
    var inDegree: map<NodeName, nat> := map v | v in nodes :: |Preds(nodes, edges, v)|;
    var ready := set v | v in nodes && inDegree[v] == 0;
    order := [];
    var done: set<NodeName> := {};
    forall v | v in nodes
      ensures inDegree[v] == |Preds(nodes, edges, v) - done|
    {
      assert Preds(nodes, edges, v) - done == Preds(nodes, edges, v);
    }
    while ready != {}
      invariant KahnInvariant(nodes, edges, order, done, inDegree, ready)
      decreases nodes - done
    {
      var u :| u in ready;
      var successors := set w | w in nodes && (u, w) in edges;
      DequeueReady(nodes, edges, order, done, inDegree, ready, u, successors);
      var inDegree', ready' := ReleaseSuccessors(nodes, done + {u}, successors, inDegree, ready - {u});
      DequeuePreserves(nodes, edges, order, done, inDegree, ready, u, successors, inDegree', ready');
      order, done, inDegree, ready := order + [u], done + {u}, inDegree', ready';
    }
    KahnFinish(nodes, edges, order, done, inDegree);
  }

  /** What Kahn's algorithm concludes once no node is ready. */
  lemma KahnFinish(nodes: set<NodeName>, edges: set<Edge>, order: seq<NodeName>, done: set<NodeName>,
                   inDegree: map<NodeName, nat>)
    requires KahnInvariant(nodes, edges, order, done, inDegree, {})
    ensures NoDuplicates(order) && RespectsEdges(order, edges)
    ensures forall v :: v in order ==> v in nodes
    ensures |order| <= |nodes|
    ensures |order| == |nodes| ==> IsTopologicalOrder(order, nodes, edges)
    ensures |order| == |nodes| <==> !HasCycle(nodes, edges)
    ensures PredecessorClosed(order, nodes, edges) && Maximal(order, nodes, edges)
  {
    CycleBlocksOrder(order, nodes, edges);
    DistinctCard(order);
    assert Elements(order) == done;
    forall v {:trigger Preds(nodes, edges, v)} | v in nodes && v !in done
      ensures |Preds(nodes, edges, v) - done| != 0
    {
      assert inDegree[v] != 0;
    }
    BlockedRest(nodes, edges, done);
    SubsetCard(done, nodes);
    if done != nodes {
      KahnBlocked(nodes, edges, order, done, inDegree);
      assert nodes == done + (nodes - done);
    }
  }

  /** If Kahn's algorithm stops before dequeuing every node, there is a cycle. */
  lemma KahnBlocked(nodes: set<NodeName>, edges: set<Edge>, order: seq<NodeName>, done: set<NodeName>,
                    inDegree: map<NodeName, nat>)
    requires KahnInvariant(nodes, edges, order, done, inDegree, {}) && done != nodes
    ensures HasCycle(nodes, edges)
  {
    forall v | v in nodes && v !in done
      ensures |Preds(nodes, edges, v) - done| != 0
    {
      assert inDegree[v] != 0;
    }
    BlockedRestHasCycle(nodes, edges, done);
  }
}
