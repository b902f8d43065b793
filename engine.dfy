/**
 * What the two `Pipeline` variants share: the records stored on graph
 * vertices and in the merge settings, payload resolution, the meaning of a
 * run as a fold over an execution order, input validation and the
 * execution loop that writes node outputs to the store.
 */
module Engine {
  import opened Values
  import opened Digraph
  import opened TopoSort
  import opened DataStore

  /**
   * A node object: its name, the annotations of its `run` method (`payload`
   * and `return`, absent or `None` alike as `None`) and `run` itself, which
   * is user code and therefore an arbitrary function here.
   */
  datatype NodeSpec = NodeSpec(name: NodeName, payloadTag: Option<TypeTag>, returnTag: Option<TypeTag>,
                               run: Value -> Value)

  /** The attributes `add_node` puts on a graph vertex. */
  datatype NodeAttrs = NodeAttrs(node: NodeSpec, inputKey: Option<Key>, outputKey: Key)

  /** A merge function: user code over the source values, and its `return` annotation. */
  datatype MergeFunction = MergeFunction(apply: seq<Value> -> Value, returnTag: Option<TypeTag>)

  /** `MergeDataSetting` (and the legacy `MergeInputsSetting`): ordered source keys and the function. */
  datatype MergeSetting = MergeSetting(keys: seq<Key>, mergeFunction: MergeFunction)

  /**
   * The networkx `DiGraph`: its vertices, the attributes of the vertices
   * added through `add_node`, and its edges.  A vertex created only by an
   * edge has no attributes.
   */
  datatype NodeGraph = NodeGraph(vertices: set<NodeName>, attrs: map<NodeName, NodeAttrs>, edges: set<Edge>) {
    ghost predicate WellFormed() {
      attrs.Keys <= vertices && EdgesWithin(vertices, edges)
    }

    /** `DiGraph.add_node(name, **attrs)`: adds the vertex if needed and (re)sets its attributes. */
    function AddNode(name: NodeName, a: NodeAttrs): (r: NodeGraph)
      ensures WellFormed() ==> r.WellFormed()
      ensures name in r.vertices && name in r.attrs && r.attrs[name] == a
      ensures forall u :: u != name ==> (u in r.vertices <==> u in vertices) && (u in r.attrs <==> u in attrs)
      ensures forall u :: u != name && u in attrs ==> r.attrs[u] == attrs[u]
      ensures r.edges == edges
    {
      NodeGraph(vertices + {name}, attrs[name := a], edges)
    }

    /** `DiGraph.add_edge(a, b)`: adds missing endpoints as bare vertices, then the edge. */
    function AddEdge(from: NodeName, to: NodeName): (r: NodeGraph)
      ensures WellFormed() ==> r.WellFormed()
      ensures r.vertices == vertices + {from, to} && r.attrs == attrs
      ensures (from, to) in r.edges && forall e :: e != (from, to) ==> (e in r.edges <==> e in edges)
    {
      NodeGraph(vertices + {from, to}, attrs, edges + {(from, to)})
    }
  }

  const EmptyGraph := NodeGraph({}, map[], {})

  // ---------------------------------------------------------------------
  // Payload resolution

  /** The values of `keys` in the store, in the declared order (the merge call's arguments). */
  function GatherValues(keys: seq<Key>, data: map<Key, Value>): (vals: seq<Value>)
    ensures |vals| == |keys|
    ensures forall i :: 0 <= i < |keys| ==> vals[i] == Lookup(data, keys[i])
  {
    if keys == [] then [] else [Lookup(data, keys[0])] + GatherValues(keys[1..], data)
  }

  /**
   * The payload handed to a node's `run`: `None` without an input key; for a
   * merge key, the merge function applied to the source values in order;
   * otherwise the store's value (`None` when absent).
   */
  function Payload(merges: map<Key, MergeSetting>, data: map<Key, Value>, inputKey: Option<Key>): (p: Value)
    ensures inputKey.None? ==> p == NoneValue
    ensures inputKey.Some? && inputKey.value !in merges ==> p == Lookup(data, inputKey.value)
    ensures inputKey.Some? && inputKey.value in merges ==>
      var m := merges[inputKey.value];
      p == m.mergeFunction.apply(GatherValues(m.keys, data))
  {
    match inputKey
    case None => NoneValue
    case Some(k) =>
      if k in merges then merges[k].mergeFunction.apply(GatherValues(merges[k].keys, data))
      else Lookup(data, k)
  }

  /** The store keys a payload is read from. */
  ghost function PayloadSources(merges: map<Key, MergeSetting>, inputKey: Option<Key>): set<Key> {
    match inputKey
    case None => {}
    case Some(k) => if k in merges then Elements(merges[k].keys) else {k}
  }

  /** A payload depends on the store only through its source keys. */
  lemma PayloadLocal(merges: map<Key, MergeSetting>, d1: map<Key, Value>, d2: map<Key, Value>, inputKey: Option<Key>)
    requires forall k :: k in PayloadSources(merges, inputKey) ==> Lookup(d1, k) == Lookup(d2, k)
    ensures Payload(merges, d1, inputKey) == Payload(merges, d2, inputKey)
  {
    if inputKey.Some? && inputKey.value in merges {
      var keys := merges[inputKey.value].keys;
      var v1, v2 := GatherValues(keys, d1), GatherValues(keys, d2);
      forall i | 0 <= i < |keys|
        ensures v1[i] == v2[i]
      {
        assert keys[i] in Elements(keys);
      }
      assert v1 == v2;
    }
  }

  // ---------------------------------------------------------------------
  // The meaning of a run: a fold over the execution order

  /** Every node of `order` carries attributes. */
  ghost predicate Runnable(attrs: map<NodeName, NodeAttrs>, order: seq<NodeName>) {
    forall v :: v in order ==> v in attrs
  }

  /** One node's turn: run it on its payload and store the result under its output key. */
  function Step(attrs: map<NodeName, NodeAttrs>, merges: map<Key, MergeSetting>, data: map<Key, Value>, v: NodeName): (d: map<Key, Value>)
    requires v in attrs
  {
    var a := attrs[v];
    data[a.outputKey := a.node.run(Payload(merges, data, a.inputKey))]
  }

  /**
   * One node's turn writes exactly its output key, with what `run` returns on
   * the payload resolved from the store as it was before the turn.
   */
  lemma StepEffect(attrs: map<NodeName, NodeAttrs>, merges: map<Key, MergeSetting>, data: map<Key, Value>, v: NodeName)
    requires v in attrs
    ensures var d := Step(attrs, merges, data, v);
      && d.Keys == data.Keys + {attrs[v].outputKey}
      && d[attrs[v].outputKey] == attrs[v].node.run(Payload(merges, data, attrs[v].inputKey))
      && forall k :: k != attrs[v].outputKey ==> Lookup(d, k) == Lookup(data, k)
  {
  }

  /** The store after running the nodes of `order`, one after another. */
  function Execute(attrs: map<NodeName, NodeAttrs>, merges: map<Key, MergeSetting>, order: seq<NodeName>,
                   data: map<Key, Value>): (d: map<Key, Value>)
    requires Runnable(attrs, order)
  {
    if order == [] then data
    else
      var n := |order| - 1;
      assert Runnable(attrs, order[..n]) by {
        forall v | v in order[..n] ensures v in attrs { assert v in order; }
      }
      Step(attrs, merges, Execute(attrs, merges, order[..n], data), order[n])
  }

  /** The output keys of the nodes of `order`. */
  ghost function OutputKeys(attrs: map<NodeName, NodeAttrs>, order: seq<NodeName>): set<Key> {
    set v | v in order && v in attrs :: attrs[v].outputKey
  }

  /** No two nodes share an output key (what `add_node`'s uniqueness check guarantees). */
  ghost predicate OutputsDistinct(attrs: map<NodeName, NodeAttrs>) {
    forall u, v :: u in attrs && v in attrs && u != v ==> attrs[u].outputKey != attrs[v].outputKey
  }

  /** A run only writes output keys: every other key keeps its value, and no key is removed. */
  lemma {:induction false} ExecuteFrame(attrs: map<NodeName, NodeAttrs>, merges: map<Key, MergeSetting>,
                                        order: seq<NodeName>, data: map<Key, Value>)
    requires Runnable(attrs, order)
    ensures Execute(attrs, merges, order, data).Keys == data.Keys + OutputKeys(attrs, order)
    ensures forall k :: k !in OutputKeys(attrs, order) ==> Lookup(Execute(attrs, merges, order, data), k) == Lookup(data, k)
  {
    if order != [] {
      var n := |order| - 1;
      assert Runnable(attrs, order[..n]) by {
        forall v | v in order[..n] ensures v in attrs { assert v in order; }
      }
      ExecuteFrame(attrs, merges, order[..n], data);
      assert order == order[..n] + [order[n]];
      assert OutputKeys(attrs, order) == OutputKeys(attrs, order[..n]) + {attrs[order[n]].outputKey};
    }
  }

  lemma PrefixRunnable(attrs: map<NodeName, NodeAttrs>, order: seq<NodeName>, m: nat)
    requires Runnable(attrs, order) && m <= |order|
    ensures Runnable(attrs, order[..m])
  {
    forall v | v in order[..m] ensures v in attrs { assert v in order; }
  }

  /**
   * With distinct output keys, the value a run leaves under a node's output
   * key is what that node returned on its turn: no later node overwrites it.
   */
  lemma ExecuteWritesOutput(attrs: map<NodeName, NodeAttrs>, merges: map<Key, MergeSetting>,
                             order: seq<NodeName>, data: map<Key, Value>, i: nat)
    requires Runnable(attrs, order) && NoDuplicates(order) && OutputsDistinct(attrs)
    requires i < |order|
    ensures Runnable(attrs, order[..i])
    ensures Lookup(Execute(attrs, merges, order, data), attrs[order[i]].outputKey)
         == attrs[order[i]].node.run(Payload(merges, Execute(attrs, merges, order[..i], data), attrs[order[i]].inputKey))
  {
    PrefixRunnable(attrs, order, i);
    var key := attrs[order[i]].outputKey;
    PrefixRunnable(attrs, order, i + 1);
    assert order[..i + 1][..i] == order[..i];
    ExecuteLast(attrs, merges, order[..i + 1], data);
    forall m | i < m < |order| ensures attrs[order[m]].outputKey != key {
      assert order[m] != order[i];
    }
    ExecuteKeepsAfter(attrs, merges, order, data, i, key);
  }

  /** A key no later node writes keeps the value it had after position `i`. */
  lemma {:induction false} ExecuteKeepsAfter(attrs: map<NodeName, NodeAttrs>, merges: map<Key, MergeSetting>,
                                             order: seq<NodeName>, data: map<Key, Value>, i: nat, key: Key)
    requires Runnable(attrs, order) && i < |order|
    requires forall m :: i < m < |order| ==> order[m] in attrs && attrs[order[m]].outputKey != key
    ensures Runnable(attrs, order[..i + 1])
    ensures Lookup(Execute(attrs, merges, order, data), key) == Lookup(Execute(attrs, merges, order[..i + 1], data), key)
  {
    PrefixRunnable(attrs, order, i + 1);
    var n := |order| - 1;
    if i < n {
      var prefix := order[..n];
      ExecuteLastKeeps(attrs, merges, order, data, key);
      ExecuteKeepsAfter(attrs, merges, prefix, data, i, key);
      assert prefix[..i + 1] == order[..i + 1];
    } else {
      assert order[..i + 1] == order;
    }
  }

  /** A last node that writes another key leaves `key` as the nodes before it left it. */
  lemma ExecuteLastKeeps(attrs: map<NodeName, NodeAttrs>, merges: map<Key, MergeSetting>, order: seq<NodeName>,
                         data: map<Key, Value>, key: Key)
    requires Runnable(attrs, order) && order != [] && attrs[order[|order| - 1]].outputKey != key
    ensures Runnable(attrs, order[..|order| - 1])
    ensures Lookup(Execute(attrs, merges, order, data), key) == Lookup(Execute(attrs, merges, order[..|order| - 1], data), key)
  {
    PrefixRunnable(attrs, order, |order| - 1);
  }

  /** The last node of an order runs on the store left by the ones before it. */
  lemma ExecuteLast(attrs: map<NodeName, NodeAttrs>, merges: map<Key, MergeSetting>, order: seq<NodeName>,
                    data: map<Key, Value>)
    requires Runnable(attrs, order) && order != []
    ensures Runnable(attrs, order[..|order| - 1])
    ensures var n := |order| - 1;
            var a := attrs[order[n]];
            Lookup(Execute(attrs, merges, order, data), a.outputKey)
              == a.node.run(Payload(merges, Execute(attrs, merges, order[..n], data), a.inputKey))
  {
    PrefixRunnable(attrs, order, |order| - 1);
  }

  /**
   * Along a `connect` edge whose consumer reads the producer's output key
   * directly, the consumer's payload is exactly what the producer returned.
   */
  lemma ConnectedPayload(attrs: map<NodeName, NodeAttrs>, merges: map<Key, MergeSetting>, edges: set<Edge>,
                         order: seq<NodeName>, data: map<Key, Value>, i: nat, j: nat)
    requires Runnable(attrs, order) && NoDuplicates(order) && OutputsDistinct(attrs) && RespectsEdges(order, edges)
    requires i < |order| && j < |order| && (order[i], order[j]) in edges
    requires attrs[order[j]].inputKey == Some(attrs[order[i]].outputKey) && attrs[order[i]].outputKey !in merges
    ensures i < j && Runnable(attrs, order[..i]) && Runnable(attrs, order[..j])
    ensures Payload(merges, Execute(attrs, merges, order[..j], data), attrs[order[j]].inputKey)
         == attrs[order[i]].node.run(Payload(merges, Execute(attrs, merges, order[..i], data), attrs[order[i]].inputKey))
  {
    PrefixRunnable(attrs, order, j);
    var prefix := order[..j];
    assert prefix[i] == order[i] && prefix[..i] == order[..i];
    assert NoDuplicates(prefix);
    ExecuteWritesOutput(attrs, merges, prefix, data, i);
  }

  // ---------------------------------------------------------------------
  // Input validation

  /** `dict.get(key)` on the type map: an absent key and a `None` entry both read as `None`. */
  function RegisteredTag(types: map<Key, Option<TypeTag>>, k: Key): Option<TypeTag> {
    if k in types then types[k] else None
  }

  /**
   * A node passes the input check when it has no input key, or when its
   * input key has a registered (non-`None`) tag equal to its payload tag.
   */
  ghost predicate NodeInputOK(types: map<Key, Option<TypeTag>>, a: NodeAttrs) {
    a.inputKey.Some? ==>
      RegisteredTag(types, a.inputKey.value).Some? && a.node.payloadTag == RegisteredTag(types, a.inputKey.value)
  }

  /** Validation passes: every vertex is a registered node whose input checks out, and there is no cycle. */
  ghost predicate InputsValid(g: NodeGraph, types: map<Key, Option<TypeTag>>) {
    && (forall v :: v in g.vertices ==> v in g.attrs && NodeInputOK(types, g.attrs[v]))
    && !HasCycle(g.vertices, g.edges)
  }

  /** The error a failed validation reports names a real defect of the graph. */
  ghost predicate ErrorExplained(g: NodeGraph, types: map<Key, Option<TypeTag>>, e: Error) {
    match e
    case MissingNodeAttributes(n) => n in g.vertices && n !in g.attrs
    case UnregisteredKey(k) =>
      RegisteredTag(types, k) == None && exists v :: v in g.attrs && g.attrs[v].inputKey == Some(k)
    case TypeMismatch(n, expected, registered) =>
      exists v :: v in g.attrs && g.attrs[v].node.name == n && g.attrs[v].node.payloadTag == expected
        && g.attrs[v].inputKey.Some? && RegisteredTag(types, g.attrs[v].inputKey.value) == Some(registered)
        && expected != Some(registered)
    case CycleDetected => HasCycle(g.vertices, g.edges)
    case _ => false
  }

  /** The check made for one vertex as the topological order reaches it. */
  function CheckNode(g: NodeGraph, types: map<Key, Option<TypeTag>>, v: NodeName): (outcome: Outcome)
    requires v in g.vertices
    ensures outcome == Pass <==> v in g.attrs && NodeInputOK(types, g.attrs[v])
    ensures outcome.Fail? ==> ErrorExplained(g, types, outcome.error)
  {
    if v !in g.attrs then Fail(MissingNodeAttributes(v))
    else
      var a := g.attrs[v];
      match a.inputKey
      case None => Pass
      case Some(k) =>
        match RegisteredTag(types, k)
        case None => Fail(UnregisteredKey(k))
        case Some(t) => if a.node.payloadTag != Some(t) then Fail(TypeMismatch(a.node.name, a.node.payloadTag, t)) else Pass
  }

  /**
   * The errors `_validate_nodes_input` can raise first.  A node error comes
   * from a node whose upstream nodes all pass and of which no upstream node
   * (itself included) lies on a cycle, so that some topological walk reaches
   * it before any other failure.  The cycle error comes from a component in
   * which every node that Kahn's algorithm could dequeue, everything outside
   * some stuck remainder, passes.
   */
  ghost predicate FirstFailure(g: NodeGraph, types: map<Key, Option<TypeTag>>, e: Error) {
    if e == CycleDetected then
      exists c :: IsWeakComponent(c, g.vertices, g.edges) && BlockedByCycle(g, types, c)
    else
      exists v :: v in g.vertices && CheckNode(g, types, v) == Fail(e) && BelowNoCycle(g.edges, v)
        && forall u :: u in g.vertices && Upstream(g.edges, u, v) ==> CheckNode(g, types, u) == Pass
  }

  /** Neither `v` nor anything upstream of it lies on a cycle. */
  ghost predicate BelowNoCycle(edges: set<Edge>, v: NodeName) {
    !Upstream(edges, v, v) && forall u :: Upstream(edges, u, v) ==> !Upstream(edges, u, u)
  }

  /** Every node of `c` outside a stuck remainder `r` passes its check. */
  ghost predicate BlockedByCycle(g: NodeGraph, types: map<Key, Option<TypeTag>>, c: set<NodeName>)
    requires c <= g.vertices
  {
    exists r :: r <= c && Stuck(r, g.edges) && forall v :: v in c && v !in r ==> CheckNode(g, types, v) == Pass
  }

  /** The first failing node of a component's Kahn order is a first failure of the graph. */
  lemma NodeFailureFirst(g: NodeGraph, types: map<Key, Option<TypeTag>>, c: set<NodeName>, order: seq<NodeName>, j: nat)
    requires IsWeakComponent(c, g.vertices, g.edges)
    requires (forall v :: v in order ==> v in c) && RespectsEdges(order, g.edges) && PredecessorClosed(order, c, g.edges)
    requires j < |order| && CheckNode(g, types, order[j]).Fail?
    requires forall k :: 0 <= k < j ==> CheckNode(g, types, order[k]) == Pass
    ensures FirstFailure(g, types, CheckNode(g, types, order[j]).error)
  {
    var v := order[j];
    forall u | u in g.vertices && Upstream(g.edges, u, v)
      ensures CheckNode(g, types, u) == Pass
    {
      var w :| |w| >= 2 && w[0] == u && w[|w| - 1] == v && DirectedWalk(w, g.edges);
      UpstreamDequeued(order, c, g.edges, w);
      var i :| 0 <= i < |order| && order[i] == u;
      assert i < j;
    }
    DequeuedAcyclic(order, c, g.edges, v);
    forall u | Upstream(g.edges, u, v)
      ensures !Upstream(g.edges, u, u)
    {
      var w :| |w| >= 2 && w[0] == u && w[|w| - 1] == v && DirectedWalk(w, g.edges);
      UpstreamDequeued(order, c, g.edges, w);
      DequeuedAcyclic(order, c, g.edges, u);
    }
  }

  /** A component that Kahn's algorithm cannot finish, after its dequeued nodes passed, is a first cycle failure. */
  lemma CycleFailureFirst(g: NodeGraph, types: map<Key, Option<TypeTag>>, c: set<NodeName>, order: seq<NodeName>)
    requires IsWeakComponent(c, g.vertices, g.edges)
    requires NoDuplicates(order) && (forall v :: v in order ==> v in c) && Maximal(order, c, g.edges)
    requires |order| < |c|
    requires forall k :: 0 <= k < |order| ==> CheckNode(g, types, order[k]) == Pass
    ensures FirstFailure(g, types, CycleDetected)
  {
    DistinctCard(order);
    var r := c - Elements(order);
    assert r != {} by {
      if r == {} {
        assert c <= Elements(order);
        SubsetCard(c, Elements(order));
      }
    }
    forall v | v in c && v !in r ensures CheckNode(g, types, v) == Pass {
      var k :| 0 <= k < |order| && order[k] == v;
    }
    assert Stuck(r, g.edges);
    assert BlockedByCycle(g, types, c);
  }

  /** A directed cycle never leaves a set that no edge enters or leaves. */
  lemma CycleInComponent(w: seq<NodeName>, c: set<NodeName>, nodes: set<NodeName>, edges: set<Edge>)
    requires IsCycle(w, nodes, edges) && ClosedUnder(c, edges) && w[0] in c
    ensures IsCycle(w, c, edges)
  {
    var k := 0;
    while k < |w| - 1
      invariant 0 <= k < |w|
      invariant forall m :: 0 <= m <= k ==> w[m] in c
    {
      assert (w[k], w[k + 1]) in edges;
      k := k + 1;
    }
  }

  /** A graph whose weakly-connected components are all acyclic is acyclic. */
  lemma AcyclicByComponents(comps: seq<set<NodeName>>, vertices: set<NodeName>, edges: set<Edge>)
    requires forall i :: 0 <= i < |comps| ==> ClosedUnder(comps[i], edges) && !HasCycle(comps[i], edges)
    requires Union(comps) == vertices
    ensures !HasCycle(vertices, edges)
  {
    if HasCycle(vertices, edges) {
      var w :| IsCycle(w, vertices, edges);
      InUnion(comps, w[0]);
      var i :| 0 <= i < |comps| && w[0] in comps[i];
      CycleInComponent(w, comps[i], vertices, edges);
    }
  }

  /** A subset of an acyclic graph's vertices is acyclic. */
  lemma AcyclicSubset(sub: set<NodeName>, nodes: set<NodeName>, edges: set<Edge>)
    requires sub <= nodes && !HasCycle(nodes, edges)
    ensures !HasCycle(sub, edges)
  {
    if HasCycle(sub, edges) {
      CycleInSuperset(sub, nodes, edges);
    }
  }

  /** The nodes of one order are checked in turn; the first failing check is reported. */
  method CheckOrder(g: NodeGraph, types: map<Key, Option<TypeTag>>, order: seq<NodeName>) returns (outcome: Outcome)
    requires forall k :: 0 <= k < |order| ==> order[k] in g.vertices
    ensures outcome == Pass <==>
      forall k :: 0 <= k < |order| ==> order[k] in g.attrs && NodeInputOK(types, g.attrs[order[k]])
    ensures outcome.Fail? ==> ErrorExplained(g, types, outcome.error)
    ensures outcome.Fail? ==>
      exists j :: 0 <= j < |order| && outcome == CheckNode(g, types, order[j]) &&
        (forall k :: 0 <= k < j ==> CheckNode(g, types, order[k]) == Pass)
  {
    var j := 0;
    while j < |order|
      invariant 0 <= j <= |order|
      invariant forall k :: 0 <= k < j ==> CheckNode(g, types, order[k]) == Pass
    {
      outcome := CheckNode(g, types, order[j]);
      if outcome.Fail? {
        return;
      }
      j := j + 1;
    }
    outcome := Pass;
  }

  /**
   * One pass of the `_validate_nodes_input` loop: the component's nodes are
   * checked in Kahn's order, and a component Kahn's algorithm cannot finish
   * is a cycle.
   */
  method ValidateComponent(g: NodeGraph, types: map<Key, Option<TypeTag>>, c: set<NodeName>) returns (outcome: Outcome)
    requires g.WellFormed() && IsWeakComponent(c, g.vertices, g.edges)
    ensures outcome == Pass <==> (forall v :: v in c ==> v in g.attrs && NodeInputOK(types, g.attrs[v])) && !HasCycle(c, g.edges)
    ensures outcome.Fail? ==>
      (outcome == Fail(CycleDetected) && HasCycle(c, g.edges)) || exists v :: v in c && outcome == CheckNode(g, types, v)
    ensures outcome.Fail? ==> ErrorExplained(g, types, outcome.error) && FirstFailure(g, types, outcome.error)
  {
    var order := TopologicalSort(c, g.edges);
    outcome := CheckOrder(g, types, order);
    if outcome.Fail? {
      ghost var j :| 0 <= j < |order| && outcome == CheckNode(g, types, order[j]) &&
        (forall k :: 0 <= k < j ==> CheckNode(g, types, order[k]) == Pass);
      NodeFailureFirst(g, types, c, order, j);
      return;
    }
    if |order| < |c| {
      CycleInSuperset(c, g.vertices, g.edges);
      CycleFailureFirst(g, types, c, order);
      return Fail(CycleDetected);
    }
  }

  /**
   * `_validate_nodes_input`: for each weakly-connected component, walks a
   * topological order and checks each node as it is reached; a component
   * that cannot be fully ordered reports its cycle after the nodes that
   * could be ordered were checked.  Passes exactly when the inputs are valid.
   */
  method ValidateNodesInput(g: NodeGraph, types: map<Key, Option<TypeTag>>) returns (outcome: Outcome)
    requires g.WellFormed()
    ensures outcome == Pass <==> InputsValid(g, types)
    ensures outcome.Fail? ==> ErrorExplained(g, types, outcome.error) && FirstFailure(g, types, outcome.error)
  {
    var comps := WeaklyConnectedComponents(g.vertices, g.edges);
    var i := 0;
    while i < |comps|
      invariant 0 <= i <= |comps|
      invariant forall v :: v in Union(comps[..i]) ==> v in g.attrs && NodeInputOK(types, g.attrs[v])
      invariant forall j :: 0 <= j < i ==> !HasCycle(comps[j], g.edges)
    {
      outcome := ValidateComponent(g, types, comps[i]);
      if outcome.Fail? {
        return;
      }
      UnionStep(comps, i);
      i := i + 1;
    }
    assert comps[..i] == comps;
    AcyclicByComponents(comps, g.vertices, g.edges);
    outcome := Pass;
  }

  // ---------------------------------------------------------------------
  // Execution

  /** The per-component orders run one after another, first component first. */
  ghost function Flatten(orders: seq<seq<NodeName>>): seq<NodeName> {
    if orders == [] then [] else Flatten(orders[..|orders| - 1]) + orders[|orders| - 1]
  }

  /**
   * `executed` runs the weakly-connected components `comps` one after
   * another, each to completion in its own topological order `orders[i]`.
   */
  ghost predicate ComponentSchedule(g: NodeGraph, comps: seq<set<NodeName>>, orders: seq<seq<NodeName>>,
                               executed: seq<NodeName>) {
    && |orders| == |comps| && executed == Flatten(orders)
    && (forall i :: 0 <= i < |comps| ==>
          IsWeakComponent(comps[i], g.vertices, g.edges) && IsTopologicalOrder(orders[i], comps[i], g.edges))
    && (forall i, j :: 0 <= i < j < |comps| ==> comps[i] !! comps[j])
    && Union(comps) == g.vertices
  }

  /** Running two orders one after the other is running their concatenation. */
  lemma {:induction false} ExecuteAppend(attrs: map<NodeName, NodeAttrs>, merges: map<Key, MergeSetting>,
                                         o1: seq<NodeName>, o2: seq<NodeName>, data: map<Key, Value>)
    requires Runnable(attrs, o1) && Runnable(attrs, o2)
    ensures Runnable(attrs, o1 + o2)
    ensures Execute(attrs, merges, o1 + o2, data) == Execute(attrs, merges, o2, Execute(attrs, merges, o1, data))
  {
    assert Runnable(attrs, o1 + o2) by {
      forall v | v in o1 + o2 ensures v in attrs { assert v in o1 || v in o2; }
    }
    if o2 == [] {
      assert o1 + o2 == o1;
    } else {
      var n := |o2| - 1;
      PrefixRunnable(attrs, o2, n);
      ExecuteAppend(attrs, merges, o1, o2[..n], data);
      assert (o1 + o2)[..|o1 + o2| - 1] == o1 + o2[..n];
    }
  }

  /** The nodes of one order run in turn against the store. */
  method RunOrder(store: InMemoryDataStore, attrs: map<NodeName, NodeAttrs>, merges: map<Key, MergeSetting>,
                  order: seq<NodeName>)
    requires Runnable(attrs, order)
    modifies store
    ensures store.data == Execute(attrs, merges, order, old(store.data))
  {
    var j := 0;
    while j < |order|
      invariant 0 <= j <= |order|
      invariant Runnable(attrs, order[..j])
      invariant store.data == Execute(attrs, merges, order[..j], old(store.data))
    {
      var a := attrs[order[j]];
      var payload := Payload(merges, store.data, a.inputKey);
      store.Set(a.outputKey, a.node.run(payload));
      PrefixRunnable(attrs, order, j + 1);
      assert order[..j + 1][..j] == order[..j];
      j := j + 1;
    }
    assert order[..j] == order;
  }

  /**
   * The execution loop of `run`: for each weakly-connected component, in
   * a topological order of it, resolves the node's payload, runs the node
   * and writes its result under its output key.  Every vertex runs exactly
   * once, component by component, producers before consumers, and the store
   * ends as the fold of those steps.
   */
  method ExecuteGraph(store: InMemoryDataStore, g: NodeGraph, merges: map<Key, MergeSetting>)
    returns (executed: seq<NodeName>, ghost comps: seq<set<NodeName>>, ghost orders: seq<seq<NodeName>>)
    requires g.WellFormed() && g.vertices == g.attrs.Keys && !HasCycle(g.vertices, g.edges)
    modifies store
    ensures ComponentSchedule(g, comps, orders, executed)
    ensures IsTopologicalOrder(executed, g.vertices, g.edges)
    ensures Runnable(g.attrs, executed)
    ensures store.data == Execute(g.attrs, merges, executed, old(store.data))
  {
    var cs := WeaklyConnectedComponents(g.vertices, g.edges);
    comps := cs;
    executed, orders := [], [];
    var i := 0;
    while i < |cs|
      invariant 0 <= i <= |cs| && |orders| == i
      invariant forall k :: 0 <= k < i ==> IsTopologicalOrder(orders[k], cs[k], g.edges)
      invariant executed == Flatten(orders)
      invariant IsTopologicalOrder(executed, Union(cs[..i]), g.edges)
      invariant Runnable(g.attrs, executed)
      invariant store.data == Execute(g.attrs, merges, executed, old(store.data))
    {
      AcyclicSubset(cs[i], g.vertices, g.edges);
      var order := TopologicalSort(cs[i], g.edges);
      RunOrder(store, g.attrs, merges, order);
      ExecuteAppend(g.attrs, merges, executed, order, old(store.data));
      DisjointFromUnion(cs[..i], cs[i]);
      AppendOrders(executed, Union(cs[..i]), order, cs[i], g.edges);
      UnionStep(cs, i);
      assert (orders + [order])[..i] == orders;
      forall k | 0 <= k <= i
        ensures IsTopologicalOrder((orders + [order])[k], cs[k], g.edges)
      {
        if k < i {
          assert (orders + [order])[k] == orders[k];
        }
      }
      orders := orders + [order];
      executed := executed + order;
      i := i + 1;
    }
    assert cs[..i] == cs;
  }

  /**
   * What `run` does once the seeds are written: validate every node's
   * input (no node runs when that fails), then execute the graph.
   */
  method ValidateAndExecute(store: InMemoryDataStore, g: NodeGraph, types: map<Key, Option<TypeTag>>,
                            merges: map<Key, MergeSetting>)
    returns (outcome: Outcome, executed: seq<NodeName>, ghost comps: seq<set<NodeName>>,
             ghost orders: seq<seq<NodeName>>)
    requires g.WellFormed()
    modifies store
    ensures outcome == Pass <==> InputsValid(g, types)
    ensures outcome.Fail? ==>
      && ErrorExplained(g, types, outcome.error) && FirstFailure(g, types, outcome.error)
      && executed == [] && store.data == old(store.data)
    ensures outcome == Pass ==>
      && ComponentSchedule(g, comps, orders, executed)
      && IsTopologicalOrder(executed, g.vertices, g.edges)
      && Runnable(g.attrs, executed)
      && store.data == Execute(g.attrs, merges, executed, old(store.data))
      && store.data.Keys == old(store.data).Keys + RegisteredOutputs(g.attrs)
      && (forall k :: k !in RegisteredOutputs(g.attrs) ==> Lookup(store.data, k) == Lookup(old(store.data), k))
  {
    executed, comps, orders := [], [], [];
    outcome := ValidateNodesInput(g, types);
    if outcome.Fail? {
      return;
    }
    executed, comps, orders := ExecuteGraph(store, g, merges);
    ExecuteFrame(g.attrs, merges, executed, old(store.data));
    assert OutputKeys(g.attrs, executed) == RegisteredOutputs(g.attrs) by {
      forall k | k in RegisteredOutputs(g.attrs) ensures k in OutputKeys(g.attrs, executed) {
        var v :| v in g.attrs && g.attrs[v].outputKey == k;
        assert v in executed;
      }
    }
  }

  // ---------------------------------------------------------------------
  // Seeds: the `inputs_data` dict of `run`, as its items in insertion order

  /** A dict has no repeated keys. */
  ghost predicate DistinctSeedKeys(seeds: seq<(Key, Value)>) {
    forall i, j :: 0 <= i < j < |seeds| ==> seeds[i].0 != seeds[j].0
  }

  ghost function SeedKeys(seeds: seq<(Key, Value)>): set<Key> {
    set i | 0 <= i < |seeds| :: seeds[i].0
  }

  /** The type map entries written for the seeds: `type(value)`, never `None`. */
  function SeedTags(seeds: seq<(Key, Value)>): (tags: map<Key, Option<TypeTag>>) {
    if seeds == [] then map[]
    else
      var n := |seeds| - 1;
      SeedTags(seeds[..n])[seeds[n].0 := Some(TypeOf(seeds[n].1))]
  }

  /** The store entries written for the seeds. */
  function SeedValues(seeds: seq<(Key, Value)>): (entries: map<Key, Value>) {
    if seeds == [] then map[]
    else
      var n := |seeds| - 1;
      SeedValues(seeds[..n])[seeds[n].0 := seeds[n].1]
  }

  /** Each seed is written under its own key, with its value and the tag of its value. */
  lemma SeedEntries(seeds: seq<(Key, Value)>)
    requires DistinctSeedKeys(seeds)
    ensures SeedTags(seeds).Keys == SeedKeys(seeds) && SeedValues(seeds).Keys == SeedKeys(seeds)
    ensures forall i :: 0 <= i < |seeds| ==>
      SeedValues(seeds)[seeds[i].0] == seeds[i].1 && SeedTags(seeds)[seeds[i].0] == Some(TypeOf(seeds[i].1))
  {
    SeedDomains(seeds);
    forall i | 0 <= i < |seeds|
      ensures SeedValues(seeds)[seeds[i].0] == seeds[i].1 && SeedTags(seeds)[seeds[i].0] == Some(TypeOf(seeds[i].1))
    {
      assert forall j :: i < j < |seeds| ==> seeds[j].0 != seeds[i].0;
      SeedAt(seeds, i);
    }
  }

  /** The seed maps are keyed by exactly the seed keys. */
  lemma SeedDomains(seeds: seq<(Key, Value)>)
    ensures SeedTags(seeds).Keys == SeedKeys(seeds) && SeedValues(seeds).Keys == SeedKeys(seeds)
  {
    var n := 0;
    while n < |seeds|
      invariant n <= |seeds|
      invariant SeedTags(seeds[..n]).Keys == SeedKeys(seeds[..n]) && SeedValues(seeds[..n]).Keys == SeedKeys(seeds[..n])
    {
      SeedStep(seeds, n);
      n := n + 1;
    }
    assert seeds[..n] == seeds;
  }

  /** No later seed overwrites seed `i` when no later seed has its key. */
  lemma {:induction false} SeedAt(seeds: seq<(Key, Value)>, i: nat)
    requires i < |seeds| && forall j :: i < j < |seeds| ==> seeds[j].0 != seeds[i].0
    ensures seeds[i].0 in SeedValues(seeds) && seeds[i].0 in SeedTags(seeds)
    ensures SeedValues(seeds)[seeds[i].0] == seeds[i].1 && SeedTags(seeds)[seeds[i].0] == Some(TypeOf(seeds[i].1))
  {
    var n := |seeds| - 1;
    if i < n {
      var prefix := seeds[..n];
      assert prefix[i] == seeds[i];
      assert forall j :: i < j < n ==> prefix[j] == seeds[j];
      SeedAt(prefix, i);
      assert seeds[n].0 != seeds[i].0;
    }
  }

  /**
   * The position of the first seed whose key is already registered (the one
   * `_setup_inputs_data` stops at), or the number of seeds when there is none.
   */
  function FirstRegistered(seeds: seq<(Key, Value)>, registered: set<Key>): (n: nat)
    ensures n <= |seeds|
    ensures forall i :: 0 <= i < n ==> seeds[i].0 !in registered
    ensures n < |seeds| ==> seeds[n].0 in registered
  {
    if seeds == [] then 0
    else if seeds[0].0 in registered then 0
    else 1 + FirstRegistered(seeds[1..], registered)
  }

  // ---------------------------------------------------------------------
  // The registry kept by `add_node` and the merge registrations

  /** The output keys of all registered nodes. */
  ghost function RegisteredOutputs(attrs: map<NodeName, NodeAttrs>): set<Key> {
    set v | v in attrs :: attrs[v].outputKey
  }

  /**
   * What registration keeps true of a pipeline's fields: the registered
   * names are exactly the vertices carrying attributes, each under its own
   * name; output keys and merge keys are pairwise distinct and are exactly
   * the registered keys; and each registered key maps to the `return`
   * annotation of whatever produces it.
   */
  ghost predicate RegistryConsistent(g: NodeGraph, types: map<Key, Option<TypeTag>>, merges: map<Key, MergeSetting>,
                                     names: set<NodeName>, keys: set<Key>) {
    && g.WellFormed()
    && names == g.attrs.Keys
    && (forall v :: v in g.attrs ==> g.attrs[v].node.name == v)
    && OutputsDistinct(g.attrs)
    && RegisteredOutputs(g.attrs) !! merges.Keys
    && keys == RegisteredOutputs(g.attrs) + merges.Keys
    && (forall v :: v in g.attrs ==> g.attrs[v].outputKey in types && types[g.attrs[v].outputKey] == g.attrs[v].node.returnTag)
    && (forall k :: k in merges ==> k in types && types[k] == merges[k].mergeFunction.returnTag)
  }

  /** Attributes for a fresh vertex add exactly their output key to the registered outputs. */
  lemma OutputsAfterAdd(attrs: map<NodeName, NodeAttrs>, name: NodeName, a: NodeAttrs)
    requires name !in attrs
    ensures RegisteredOutputs(attrs[name := a]) == RegisteredOutputs(attrs) + {a.outputKey}
  {
    var attrs' := attrs[name := a];
    forall k | k in RegisteredOutputs(attrs') ensures k in RegisteredOutputs(attrs) + {a.outputKey} {
      var v :| v in attrs' && attrs'[v].outputKey == k;
      if v != name { assert v in attrs; }
    }
    forall k | k in RegisteredOutputs(attrs) ensures k in RegisteredOutputs(attrs') {
      var v :| v in attrs && attrs[v].outputKey == k;
      assert attrs'[v] == attrs[v];
    }
    assert attrs'[name].outputKey == a.outputKey;
  }

  /** Registering a node under a fresh name and a fresh output key keeps the registry consistent. */
  lemma RegistryAddNode(g: NodeGraph, types: map<Key, Option<TypeTag>>, merges: map<Key, MergeSetting>,
                        names: set<NodeName>, keys: set<Key>, node: NodeSpec, inputKey: Option<Key>, out: Key)
    requires RegistryConsistent(g, types, merges, names, keys)
    requires node.name !in names && out !in keys
    ensures RegistryConsistent(g.AddNode(node.name, NodeAttrs(node, inputKey, out)), types[out := node.returnTag],
                               merges, names + {node.name}, keys + {out})
  {
    OutputsAfterAdd(g.attrs, node.name, NodeAttrs(node, inputKey, out));
    forall v | v in g.attrs ensures g.attrs[v].outputKey != out {
      assert g.attrs[v].outputKey in RegisteredOutputs(g.attrs);
    }
  }

  /** Registering a merge under a fresh key keeps the registry consistent. */
  lemma RegistryMerge(g: NodeGraph, types: map<Key, Option<TypeTag>>, merges: map<Key, MergeSetting>,
                      names: set<NodeName>, keys: set<Key>, newKey: Key, setting: MergeSetting)
    requires RegistryConsistent(g, types, merges, names, keys)
    requires newKey !in keys
    ensures RegistryConsistent(g, types[newKey := setting.mergeFunction.returnTag], merges[newKey := setting],
                               names, keys + {newKey})
  {
    forall v | v in g.attrs ensures g.attrs[v].outputKey != newKey {
      assert g.attrs[v].outputKey in RegisteredOutputs(g.attrs);
    }
  }

  /** Adding an edge (and any bare endpoints) keeps the registry consistent. */
  lemma RegistryAddEdge(g: NodeGraph, types: map<Key, Option<TypeTag>>, merges: map<Key, MergeSetting>,
                        names: set<NodeName>, keys: set<Key>, from: NodeName, to: NodeName)
    requires RegistryConsistent(g, types, merges, names, keys)
    ensures RegistryConsistent(g.AddEdge(from, to), types, merges, names, keys)
  {
  }

  /** The registry only constrains the types of registered keys: seeds may come and go. */
  lemma RegistryRetype(g: NodeGraph, types: map<Key, Option<TypeTag>>, types': map<Key, Option<TypeTag>>,
                       merges: map<Key, MergeSetting>, names: set<NodeName>, keys: set<Key>)
    requires RegistryConsistent(g, types, merges, names, keys)
    requires forall k :: k in keys && k in types ==> k in types' && types'[k] == types[k]
    ensures RegistryConsistent(g, types', merges, names, keys)
  {
    forall v | v in g.attrs ensures g.attrs[v].outputKey in keys {
      assert g.attrs[v].outputKey in RegisteredOutputs(g.attrs);
    }
  }

  /** The seed maps grow by one entry per seed. */
  lemma SeedStep(seeds: seq<(Key, Value)>, i: nat)
    requires i < |seeds|
    ensures SeedTags(seeds[..i + 1]) == SeedTags(seeds[..i])[seeds[i].0 := Some(TypeOf(seeds[i].1))]
    ensures SeedValues(seeds[..i + 1]) == SeedValues(seeds[..i])[seeds[i].0 := seeds[i].1]
    ensures SeedKeys(seeds[..i + 1]) == SeedKeys(seeds[..i]) + {seeds[i].0}
  {
    assert seeds[..i + 1][..i] == seeds[..i];
    assert seeds[..i + 1][i] == seeds[i];
    forall k | k in SeedKeys(seeds[..i + 1]) ensures k in SeedKeys(seeds[..i]) + {seeds[i].0} {
      var j :| 0 <= j <= i && seeds[..i + 1][j].0 == k;
      if j < i { assert seeds[..i][j] == seeds[j]; }
    }
    forall k | k in SeedKeys(seeds[..i]) ensures k in SeedKeys(seeds[..i + 1]) {
      var j :| 0 <= j < i && seeds[..i][j].0 == k;
      assert seeds[..i + 1][j] == seeds[j];
    }
  }

  /** With distinct keys, a seed's key is not among the keys before it. */
  lemma SeedKeyFresh(seeds: seq<(Key, Value)>, i: nat)
    requires DistinctSeedKeys(seeds) && i < |seeds|
    ensures seeds[i].0 !in SeedKeys(seeds[..i])
  {
    forall j | 0 <= j < i ensures seeds[..i][j].0 != seeds[i].0 {
      assert seeds[..i][j] == seeds[j];
    }
  }

  /** Overwriting one key after a union is the union with the overwritten right operand. */
  lemma UnionUpdate<V>(a: map<Key, V>, b: map<Key, V>, k: Key, v: V)
    ensures (a + b)[k := v] == a + b[k := v]
  {
  }

  /** When no seed key is registered, the seed keys and the registered keys are disjoint. */
  lemma SeedsUnregistered(seeds: seq<(Key, Value)>, registered: set<Key>)
    requires FirstRegistered(seeds, registered) == |seeds|
    ensures SeedKeys(seeds) !! registered
  {
    forall k | k in SeedKeys(seeds) ensures k !in registered {
      var j :| 0 <= j < |seeds| && seeds[j].0 == k;
    }
  }
}
