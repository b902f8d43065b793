/**
 * The legacy `Pipeline` of the `spima` package.  It registers nodes, keys
 * and merged inputs like the `pipesche` version, but `connect` takes node
 * objects, there is no `clear_nodes`, and `run` never removes its seeds:
 * they stay in the type map and in the store once the run is over.
 */
module Spima {
  import opened Values
  import opened Digraph
  import opened TopoSort
  import opened DataStore
  import opened Engine

  class Pipeline {
    /** `data_store` */
    const store: InMemoryDataStore
    /** `_graph` */
    var graph: NodeGraph
    /** `_input_types`: key -> `return` annotation of its producer, or `type(value)` of a seed. */
    var inputTypes: map<Key, Option<TypeTag>>
    /** `_merge_inputs_settings` */
    var merges: map<Key, MergeSetting>
    /** `_registered_node_names` */
    var registeredNames: set<NodeName>
    /** `_registered_keys` */
    var registeredKeys: set<Key>

    ghost predicate Valid()
      reads this
    {
      RegistryConsistent(graph, inputTypes, merges, registeredNames, registeredKeys)
    }

    constructor (dataStore: InMemoryDataStore)
      ensures store == dataStore
      ensures graph == EmptyGraph && inputTypes == map[] && merges == map[]
      ensures registeredNames == {} && registeredKeys == {}
      ensures Valid()
    {
      store := dataStore;
      graph := EmptyGraph;
      inputTypes := map[];
      merges := map[];
      registeredNames := {};
      registeredKeys := {};
    }

    /**
     * `add_node`: the output key defaults to the node's name; a registered
     * name or a registered output key is refused before anything changes.
     */
    method AddNode(node: NodeSpec, inputKey: Option<Key>, outputKey: Option<Key>) returns (outcome: Outcome)
      requires Valid()
      modifies this
      ensures Valid()
      ensures var out := outputKey.GetOr(node.name);
        if node.name in old(registeredNames) then
          outcome == Fail(DuplicateNodeName(node.name)) && unchanged(this)
        else if out in old(registeredKeys) then
          outcome == Fail(DuplicateKey(out)) && unchanged(this)
        else
          && outcome == Pass
          && registeredNames == old(registeredNames) + {node.name}
          && registeredKeys == old(registeredKeys) + {out}
          && inputTypes == old(inputTypes)[out := node.returnTag]
          && graph == old(graph).AddNode(node.name, NodeAttrs(node, inputKey, out))
          && merges == old(merges)
    {
      var out := outputKey.GetOr(node.name);
      if node.name in registeredNames {
        return Fail(DuplicateNodeName(node.name));
      }
      if out in registeredKeys {
        return Fail(DuplicateKey(out));
      }
      RegistryAddNode(graph, inputTypes, merges, registeredNames, registeredKeys, node, inputKey, out);
      registeredNames := registeredNames + {node.name};
      registeredKeys := registeredKeys + {out};
      inputTypes := inputTypes[out := node.returnTag];
      graph := graph.AddNode(node.name, NodeAttrs(node, inputKey, out));
      outcome := Pass;
    }

    /**
     * `connect`: adds exactly the edge between the two nodes' names (and
     * their vertices when they are not in the graph); cycles are not checked.
     */
    method Connect(fromNode: NodeSpec, toNode: NodeSpec)
      requires Valid()
      modifies this`graph
      ensures Valid()
      ensures graph.edges == old(graph.edges) + {(fromNode.name, toNode.name)}
      ensures graph.vertices == old(graph.vertices) + {fromNode.name, toNode.name}
      ensures graph.attrs == old(graph.attrs)
    {
      RegistryAddEdge(graph, inputTypes, merges, registeredNames, registeredKeys, fromNode.name, toNode.name);
      graph := graph.AddEdge(fromNode.name, toNode.name);
    }

    /** `get_node`: see the `pipesche` version; the lookup is the same. */
    function GetNode(name: NodeName): (r: Result<NodeSpec>)
      reads this
      requires Valid()
      ensures r.Success? <==> name in registeredNames
      ensures r.Success? ==> r.value == graph.attrs[name].node && r.value.name == name
      ensures name !in graph.vertices ==> r == Failure(MissingKey(name))
      ensures name in graph.vertices && name !in registeredNames ==> r == Failure(MissingNodeAttributes(name))
    {
      if name !in graph.vertices then Failure(MissingKey(name))
      else if name !in graph.attrs then Failure(MissingNodeAttributes(name))
      else Success(graph.attrs[name].node)
    }

    /**
     * `_setup_inputs_data`: writes the seeds in order, each with the tag of
     * its value, and stops at the first seed whose key is registered.
     */
    method SetupInputsData(seeds: seq<(Key, Value)>) returns (outcome: Outcome)
      requires Valid()
      modifies this`inputTypes, store
      ensures Valid()
      ensures var n := FirstRegistered(seeds, registeredKeys);
        && outcome == (if n < |seeds| then Fail(DuplicateKey(seeds[n].0)) else Pass)
        && inputTypes == old(inputTypes) + SeedTags(seeds[..n])
        && store.data == old(store.data) + SeedValues(seeds[..n])
    {
      ghost var n := FirstRegistered(seeds, registeredKeys);
      var i := 0;
      while i < |seeds|
        invariant i <= n
        invariant Valid()
        invariant inputTypes == old(inputTypes) + SeedTags(seeds[..i])
        invariant store.data == old(store.data) + SeedValues(seeds[..i])
      {
        var (key, value) := seeds[i];
        if key in registeredKeys {
          assert i == n;
          return Fail(DuplicateKey(key));
        }
        SeedStep(seeds, i);
        UnionUpdate(old(inputTypes), SeedTags(seeds[..i]), key, Some(TypeOf(value)));
        UnionUpdate(old(store.data), SeedValues(seeds[..i]), key, value);
        RegistryRetype(graph, inputTypes, inputTypes[key := Some(TypeOf(value))], merges, registeredNames, registeredKeys);
        inputTypes := inputTypes[key := Some(TypeOf(value))];
        store.Set(key, value);
        i := i + 1;
      }
      assert n == i && seeds[..i] == seeds;
      outcome := Pass;
    }

    /**
     * `merge_inputs`: registers `newKey` as the merge of `inputKeys`, in that
     * order; a registered key is refused before anything changes.
     */
    method MergeInputs(inputKeys: seq<Key>, newKey: Key, mergeFunction: MergeFunction) returns (outcome: Outcome)
      requires Valid()
      modifies this`inputTypes, this`registeredKeys, this`merges
      ensures Valid()
      ensures newKey in old(registeredKeys) ==>
        outcome == Fail(DuplicateKey(newKey)) && unchanged(this)
      ensures newKey !in old(registeredKeys) ==>
        && outcome == Pass
        && inputTypes == old(inputTypes)[newKey := mergeFunction.returnTag]
        && registeredKeys == old(registeredKeys) + {newKey}
        && merges == old(merges)[newKey := MergeSetting(inputKeys, mergeFunction)]
    {
      if newKey in registeredKeys {
        return Fail(DuplicateKey(newKey));
      }
      RegistryMerge(graph, inputTypes, merges, registeredNames, registeredKeys, newKey, MergeSetting(inputKeys, mergeFunction));
      inputTypes := inputTypes[newKey := mergeFunction.returnTag];
      registeredKeys := registeredKeys + {newKey};
      merges := merges[newKey := MergeSetting(inputKeys, mergeFunction)];
      outcome := Pass;
    }

    /**
     * `run(inputs_data)`: seeds the store, validates every node's input and
     * runs each weakly-connected component in a topological order.  The
     * seeds are never removed: after a successful run each one is still
     * readable under its key, with its value.
     */
    method Run(seeds: seq<(Key, Value)>)
      returns (outcome: Outcome, executed: seq<NodeName>, ghost comps: seq<set<NodeName>>,
               ghost orders: seq<seq<NodeName>>)
      requires Valid() && DistinctSeedKeys(seeds)
      modifies this`inputTypes, store
      ensures Valid()
      ensures var n := FirstRegistered(seeds, registeredKeys);
        n < |seeds| ==>
          && outcome == Fail(DuplicateKey(seeds[n].0)) && executed == []
          && inputTypes == old(inputTypes) + SeedTags(seeds[..n])
          && store.data == old(store.data) + SeedValues(seeds[..n])
      ensures FirstRegistered(seeds, registeredKeys) == |seeds| ==>
        var types := old(inputTypes) + SeedTags(seeds);
        var seeded := old(store.data) + SeedValues(seeds);
        && inputTypes == types
        && (outcome == Pass <==> InputsValid(graph, types))
        && (outcome.Fail? ==>
              && ErrorExplained(graph, types, outcome.error) && FirstFailure(graph, types, outcome.error)
              && executed == [] && store.data == seeded)
        && (outcome == Pass ==>
              && ComponentSchedule(graph, comps, orders, executed)
              && IsTopologicalOrder(executed, graph.vertices, graph.edges)
              && Runnable(graph.attrs, executed)
              && store.data == Execute(graph.attrs, merges, executed, seeded)
              && (forall i :: 0 <= i < |seeds| ==> seeds[i].0 in store.data && store.data[seeds[i].0] == seeds[i].1))
    {
      executed, comps, orders := [], [], [];
      outcome := SetupInputsData(seeds);
      if outcome.Fail? {
        return;
      }
      assert seeds[..|seeds|] == seeds;
      outcome, executed, comps, orders := ValidateAndExecute(store, graph, inputTypes, merges);
      if outcome.Fail? {
        return;
      }
      SeedEntries(seeds);
      SeedsUnregistered(seeds, registeredKeys);
      forall i | 0 <= i < |seeds| ensures seeds[i].0 in store.data && store.data[seeds[i].0] == seeds[i].1 {
        assert seeds[i].0 in SeedKeys(seeds);
        assert Lookup(store.data, seeds[i].0) == Lookup(old(store.data) + SeedValues(seeds), seeds[i].0);
      }
    }

    /** `get_data`: fails exactly when the store has no entry for the key. */
    function GetData(key: Key): (r: Result<Value>)
      reads store
      ensures r.Success? <==> key in store.data
      ensures r.Success? ==> r.value == store.data[key]
      ensures r.Failure? ==> r.error == MissingData(key)
    {
      if !store.Exist(key) then Failure(MissingData(key)) else Success(store.Get(key))
    }

    /** `clear_data`: empties the store and nothing else; every lookup then fails. */
    method ClearData()
      modifies store
      ensures store.data == map[]
      ensures forall k :: GetData(k) == Failure(MissingData(k))
    {
      store.Clear();
    }
  }
}
