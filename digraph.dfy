/**
 * Directed graphs over node names and their weakly-connected components.
 * This replaces the engine's use of networkx's `weakly_connected_components`
 * by an explicit adjacency-based search.
 */
module Digraph {
  import opened Values

  /** A directed edge (producer, consumer), as recorded by `connect`. */
  type Edge = (NodeName, NodeName)

  ghost predicate NoDuplicates<T>(s: seq<T>) {
    forall i, j :: 0 <= i < j < |s| ==> s[i] != s[j]
  }

  ghost function Elements(s: seq<NodeName>): set<NodeName> {
    set v | v in s
  }

  /** Every edge joins two vertices of the graph. */
  ghost predicate EdgesWithin(vertices: set<NodeName>, edges: set<Edge>) {
    forall e :: e in edges ==> e.0 in vertices && e.1 in vertices
  }

  /** Adjacency with the direction of edges ignored. */
  predicate Adjacent(edges: set<Edge>, a: NodeName, b: NodeName) {
    (a, b) in edges || (b, a) in edges
  }

  /** No edge leaves or enters `s`: `s` is a union of weakly-connected components. */
  ghost predicate ClosedUnder(s: set<NodeName>, edges: set<Edge>) {
    forall e :: e in edges ==> (e.0 in s <==> e.1 in s)
  }

  /** `w` is a walk from `a` to `b` that ignores edge directions. */
  ghost predicate UndirectedWalk(w: seq<NodeName>, a: NodeName, b: NodeName, edges: set<Edge>) {
    && |w| > 0 && w[0] == a && w[|w| - 1] == b
    && forall k :: 0 <= k < |w| - 1 ==> Adjacent(edges, w[k], w[k + 1])
  }

  ghost predicate Linked(edges: set<Edge>, a: NodeName, b: NodeName) {
    exists w :: UndirectedWalk(w, a, b, edges)
  }

  /** Every member of `c` is reachable from one root, ignoring edge directions. */
  ghost predicate Connected(c: set<NodeName>, edges: set<Edge>) {
    exists root :: root in c && forall v :: v in c ==> Linked(edges, root, v)
  }

  /** A weakly-connected component: nonempty, connected, and maximal (closed). */
  ghost predicate IsWeakComponent(c: set<NodeName>, vertices: set<NodeName>, edges: set<Edge>) {
    c != {} && c <= vertices && ClosedUnder(c, edges) && Connected(c, edges)
  }

  ghost function Union(cs: seq<set<NodeName>>): set<NodeName> {
    if cs == [] then {} else Union(cs[..|cs| - 1]) + cs[|cs| - 1]
  }

  lemma ExtendWalk(w: seq<NodeName>, a: NodeName, u: NodeName, v: NodeName, edges: set<Edge>)
    requires UndirectedWalk(w, a, u, edges) && Adjacent(edges, u, v)
    ensures UndirectedWalk(w + [v], a, v, edges)
  {
    var w' := w + [v];
    forall k | 0 <= k < |w'| - 1
      ensures Adjacent(edges, w'[k], w'[k + 1])
    {
      if k < |w| - 1 {
        assert w'[k] == w[k] && w'[k + 1] == w[k + 1];
      } else {
        assert w'[k] == u && w'[k + 1] == v;
      }
    }
  }

  /** Adding one more set to the union. */
  lemma UnionStep(cs: seq<set<NodeName>>, i: nat)
    requires i < |cs|
    ensures Union(cs[..i + 1]) == Union(cs[..i]) + cs[i]
  {
    assert cs[..i + 1][..i] == cs[..i];
  }

  /** A union of closed sets is closed. */
  lemma {:induction false} UnionClosed(cs: seq<set<NodeName>>, edges: set<Edge>)
    requires forall i :: 0 <= i < |cs| ==> ClosedUnder(cs[i], edges)
    ensures ClosedUnder(Union(cs), edges)
  {
    if cs != [] {
      UnionClosed(cs[..|cs| - 1], edges);
    }
  }

  /** Every member of a union comes from one of the united sets. */
  lemma {:induction false} InUnion(cs: seq<set<NodeName>>, v: NodeName)
    requires v in Union(cs)
    ensures exists i :: 0 <= i < |cs| && v in cs[i]
  {
    var n := |cs| - 1;
    if v !in cs[n] {
      InUnion(cs[..n], v);
      var i :| 0 <= i < n && v in cs[..n][i];
      assert v in cs[i];
    }
  }

  /** A set disjoint from each of several sets is disjoint from their union. */
  lemma {:induction false} DisjointFromUnion(cs: seq<set<NodeName>>, c: set<NodeName>)
    requires forall i :: 0 <= i < |cs| ==> cs[i] !! c
    ensures Union(cs) !! c
  {
    if cs != [] {
      DisjointFromUnion(cs[..|cs| - 1], c);
    }
  }

  /**
   * Splits the graph into its weakly-connected components (networkx's
   * `weakly_connected_components`): the components are pairwise disjoint,
   * together cover every vertex, each is connected and no edge leaves one.
   * The order in which they are found is left open.
   */
  method WeaklyConnectedComponents(vertices: set<NodeName>, edges: set<Edge>)
    returns (comps: seq<set<NodeName>>)
    requires EdgesWithin(vertices, edges)
    ensures forall i :: 0 <= i < |comps| ==> IsWeakComponent(comps[i], vertices, edges)
    ensures forall i, j :: 0 <= i < j < |comps| ==> comps[i] !! comps[j]
    ensures Union(comps) == vertices
  {
    var remaining := vertices;
    comps := [];
    while remaining != {}
      invariant remaining <= vertices
      invariant ClosedUnder(remaining, edges)
      invariant Union(comps) == vertices - remaining
      invariant forall i :: 0 <= i < |comps| ==> IsWeakComponent(comps[i], vertices, edges)
      invariant forall i :: 0 <= i < |comps| ==> comps[i] !! remaining
      invariant forall i, j :: 0 <= i < j < |comps| ==> comps[i] !! comps[j]
      decreases remaining
    {
      var s :| s in remaining;
      var comp, frontier := {s}, {s};
      ghost var walks: map<NodeName, seq<NodeName>> := map[s := [s]];
      while frontier != {}
        invariant s in comp && frontier <= comp <= remaining
        invariant forall v :: v in comp ==> v in walks && UndirectedWalk(walks[v], s, v, edges)
        invariant forall u, w :: u in comp && u !in frontier && w in remaining && Adjacent(edges, u, w) ==> w in comp
        decreases remaining - comp, frontier
      {
        var u :| u in frontier;
        var found := set w | w in remaining && Adjacent(edges, u, w) && w !in comp;
        forall v | v in found
          ensures UndirectedWalk(walks[u] + [v], s, v, edges)
        {
          ExtendWalk(walks[u], s, u, v, edges);
        }
        walks := walks + map w | w in found :: walks[u] + [w];
        comp := comp + found;
        frontier := (frontier - {u}) + found;
      }
      forall v | v in comp
        ensures Linked(edges, s, v)
      {
        assert UndirectedWalk(walks[v], s, v, edges);
      }
      assert ClosedUnder(comp, edges) by {
        forall e | e in edges
          ensures e.0 in comp <==> e.1 in comp
        {
          if e.0 in comp {
            assert Adjacent(edges, e.0, e.1);
          }
          if e.1 in comp {
            assert Adjacent(edges, e.1, e.0);
          }
        }
      }
      assert IsWeakComponent(comp, vertices, edges);
      assert (comps + [comp])[..|comps|] == comps;
      comps := comps + [comp];
      remaining := remaining - comp;
    }
  }
}
