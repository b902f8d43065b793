/**
 * The `Pipeline` of the `pipesche` package: a registry of nodes, keys and
 * merge settings over a directed graph, and `run`, which seeds the store,
 * validates the declared input types, executes every weakly-connected
 * component in a topological order and finally removes the seeds again.
 */
module Pipesche {
  import opened Values
  import opened Digraph
  import opened TopoSort
  import opened DataStore
  import opened Engine

  class Pipeline {
    /** `data_store`: the store outputs are written to. */
    const store: InMemoryDataStore
    /** `_graph` */
    var graph: NodeGraph
    /** `_data_types`: key -> `return` annotation of its producer, or `type(value)` of a seed. */
    var dataTypes: map<Key, Option<TypeTag>>
    /** `_merge_data_settings` */
    var merges: map<Key, MergeSetting>
    /** `_registered_node_names` */
    var registeredNames: set<NodeName>
    /** `_registered_keys` */
    var registeredKeys: set<Key>

    ghost predicate Valid()
      reads this
    {
      RegistryConsistent(graph, dataTypes, merges, registeredNames, registeredKeys)
    }

    constructor (dataStore: InMemoryDataStore)
      ensures store == dataStore
      ensures graph == EmptyGraph && dataTypes == map[] && merges == map[]
      ensures registeredNames == {} && registeredKeys == {}
      ensures Valid()
    {
      store := dataStore;
      graph := EmptyGraph;
      dataTypes := map[];
      merges := map[];
      registeredNames := {};
      registeredKeys := {};
    }

    /**
     * `add_node`: the output key defaults to the node's name; a registered
     * name or a registered output key is refused before anything changes.
     */
    method AddNode(node: NodeSpec, inputKey: Option<Key>, outputKey: Option<Key>) returns (outcome: Outcome)
      requires Valid()
      modifies this
      ensures Valid()
      ensures var out := outputKey.GetOr(node.name);
        if node.name in old(registeredNames) then
          outcome == Fail(DuplicateNodeName(node.name)) && unchanged(this)
        else if out in old(registeredKeys) then
          outcome == Fail(DuplicateKey(out)) && unchanged(this)
        else
          && outcome == Pass
          && registeredNames == old(registeredNames) + {node.name}
          && registeredKeys == old(registeredKeys) + {out}
          && dataTypes == old(dataTypes)[out := node.returnTag]
          && graph == old(graph).AddNode(node.name, NodeAttrs(node, inputKey, out))
          && merges == old(merges)
    {
      var out := outputKey.GetOr(node.name);
      if node.name in registeredNames {
        return Fail(DuplicateNodeName(node.name));
      }
      if out in registeredKeys {
        return Fail(DuplicateKey(out));
      }
      RegistryAddNode(graph, dataTypes, merges, registeredNames, registeredKeys, node, inputKey, out);
      registeredNames := registeredNames + {node.name};
      registeredKeys := registeredKeys + {out};
      dataTypes := dataTypes[out := node.returnTag];
      graph := graph.AddNode(node.name, NodeAttrs(node, inputKey, out));
      outcome := Pass;
    }

    /** `connect`: records the edge by name, adding unknown endpoints as bare vertices. */
    method Connect(from: NodeName, to: NodeName)
      requires Valid()
      modifies this`graph
      ensures Valid()
      ensures graph == old(graph).AddEdge(from, to)
    {
      RegistryAddEdge(graph, dataTypes, merges, registeredNames, registeredKeys, from, to);
      graph := graph.AddEdge(from, to);
    }

    /**
     * `merge_data`: registers `newKey` as the merge of `keys`, in that order;
     * a registered key is refused before anything changes.
     */
    method MergeData(keys: seq<Key>, newKey: Key, mergeFunction: MergeFunction) returns (outcome: Outcome)
      requires Valid()
      modifies this`dataTypes, this`registeredKeys, this`merges
      ensures Valid()
      ensures newKey in old(registeredKeys) ==>
        outcome == Fail(DuplicateKey(newKey)) && unchanged(this)
      ensures newKey !in old(registeredKeys) ==>
        && outcome == Pass
        && dataTypes == old(dataTypes)[newKey := mergeFunction.returnTag]
        && registeredKeys == old(registeredKeys) + {newKey}
        && merges == old(merges)[newKey := MergeSetting(keys, mergeFunction)]
    {
      if newKey in registeredKeys {
        return Fail(DuplicateKey(newKey));
      }
      RegistryMerge(graph, dataTypes, merges, registeredNames, registeredKeys, newKey, MergeSetting(keys, mergeFunction));
      dataTypes := dataTypes[newKey := mergeFunction.returnTag];
      registeredKeys := registeredKeys + {newKey};
      merges := merges[newKey := MergeSetting(keys, mergeFunction)];
      outcome := Pass;
    }

    /**
     * `get_node`: the node registered under `name`; an unknown name is a
     * `KeyError` on the vertex, a bare vertex a `KeyError` on `"node"`.
     */
    function GetNode(name: NodeName): (r: Result<NodeSpec>)
      reads this
      requires Valid()
      ensures r.Success? <==> name in registeredNames
      ensures r.Success? ==> r.value == graph.attrs[name].node && r.value.name == name
      ensures name !in graph.vertices ==> r == Failure(MissingKey(name))
      ensures name in graph.vertices && name !in registeredNames ==> r == Failure(MissingNodeAttributes(name))
    {
      if name !in graph.vertices then Failure(MissingKey(name))
      else if name !in graph.attrs then Failure(MissingNodeAttributes(name))
      else Success(graph.attrs[name].node)
    }

    /**
     * `_setup_inputs_data`: writes the seeds in order, each with the tag of
     * its value, and stops at the first seed whose key is registered; the
     * seeds written before it stay written.
     */
    method SetupInputsData(seeds: seq<(Key, Value)>) returns (outcome: Outcome)
      requires Valid()
      modifies this`dataTypes, store
      ensures Valid()
      ensures var n := FirstRegistered(seeds, registeredKeys);
        && outcome == (if n < |seeds| then Fail(DuplicateKey(seeds[n].0)) else Pass)
        && dataTypes == old(dataTypes) + SeedTags(seeds[..n])
        && store.data == old(store.data) + SeedValues(seeds[..n])
    {
      ghost var n := FirstRegistered(seeds, registeredKeys);
      var i := 0;
      while i < |seeds|
        invariant i <= n
        invariant Valid()
        invariant dataTypes == old(dataTypes) + SeedTags(seeds[..i])
        invariant store.data == old(store.data) + SeedValues(seeds[..i])
      {
        var (key, value) := seeds[i];
        if key in registeredKeys {
          assert i == n;
          return Fail(DuplicateKey(key));
        }
        SeedStep(seeds, i);
        UnionUpdate(old(dataTypes), SeedTags(seeds[..i]), key, Some(TypeOf(value)));
        UnionUpdate(old(store.data), SeedValues(seeds[..i]), key, value);
        RegistryRetype(graph, dataTypes, dataTypes[key := Some(TypeOf(value))], merges, registeredNames, registeredKeys);
        dataTypes := dataTypes[key := Some(TypeOf(value))];
        store.Set(key, value);
        i := i + 1;
      }
      assert n == i && seeds[..i] == seeds;
      outcome := Pass;
    }

    /** `_remove_inputs_data`: deletes every seed key from the type map and the store. */
    method RemoveInputsData(seeds: seq<(Key, Value)>)
      requires Valid() && DistinctSeedKeys(seeds)
      requires SeedKeys(seeds) !! registeredKeys
      requires SeedKeys(seeds) <= dataTypes.Keys && SeedKeys(seeds) <= store.data.Keys
      modifies this`dataTypes, store
      ensures Valid()
      ensures dataTypes == old(dataTypes) - SeedKeys(seeds)
      ensures store.data == old(store.data) - SeedKeys(seeds)
    {
      var i := 0;
      while i < |seeds|
        invariant i <= |seeds|
        invariant Valid()
        invariant dataTypes == old(dataTypes) - SeedKeys(seeds[..i])
        invariant store.data == old(store.data) - SeedKeys(seeds[..i])
      {
        var key := seeds[i].0;
        SeedStep(seeds, i);
        SeedKeyFresh(seeds, i);
        assert key in SeedKeys(seeds);
        RegistryRetype(graph, dataTypes, dataTypes - {key}, merges, registeredNames, registeredKeys);
        dataTypes := dataTypes - {key};
        var _ := store.Delete(key);
        i := i + 1;
      }
      assert seeds[..i] == seeds;
    }

    /**
     * `run(inputs_data)`: seeds the store, validates every node's input,
     * runs each weakly-connected component in a topological order and
     * removes the seeds again.  `executed` is the order in which the nodes
     * ran.  A failure while seeding or validating leaves the seeds written
     * so far in place and runs no node.
     */
    method Run(seeds: seq<(Key, Value)>)
      returns (outcome: Outcome, executed: seq<NodeName>, ghost comps: seq<set<NodeName>>,
               ghost orders: seq<seq<NodeName>>)
      requires Valid() && DistinctSeedKeys(seeds)
      modifies this`dataTypes, store
      ensures Valid()
      ensures var n := FirstRegistered(seeds, registeredKeys);
        n < |seeds| ==>
          && outcome == Fail(DuplicateKey(seeds[n].0)) && executed == []
          && dataTypes == old(dataTypes) + SeedTags(seeds[..n])
          && store.data == old(store.data) + SeedValues(seeds[..n])
      ensures FirstRegistered(seeds, registeredKeys) == |seeds| ==>
        var types := old(dataTypes) + SeedTags(seeds);
        var seeded := old(store.data) + SeedValues(seeds);
        && (outcome == Pass <==> InputsValid(graph, types))
        && (outcome.Fail? ==>
              && ErrorExplained(graph, types, outcome.error) && FirstFailure(graph, types, outcome.error)
              && executed == []
              && dataTypes == types && store.data == seeded)
        && (outcome == Pass ==>
              && ComponentSchedule(graph, comps, orders, executed)
              && IsTopologicalOrder(executed, graph.vertices, graph.edges)
              && Runnable(graph.attrs, executed)
              && dataTypes == types - SeedKeys(seeds)
              && store.data == Execute(graph.attrs, merges, executed, seeded) - SeedKeys(seeds)
              && (forall v :: v in graph.attrs ==> graph.attrs[v].outputKey in store.data))
    {
      executed, comps, orders := [], [], [];
      outcome := SetupInputsData(seeds);
      if outcome.Fail? {
        return;
      }
      assert seeds[..|seeds|] == seeds;
      SeedEntries(seeds);
      SeedsUnregistered(seeds, registeredKeys);
      outcome, executed, comps, orders := ExecuteSeeded(seeds);
    }

    /**
     * The rest of `run` once every seed is written: validate, execute the
     * graph component by component, then remove the seeds.  No node runs
     * and the seeds stay when validation fails.
     */
    method ExecuteSeeded(seeds: seq<(Key, Value)>)
      returns (outcome: Outcome, executed: seq<NodeName>, ghost comps: seq<set<NodeName>>,
               ghost orders: seq<seq<NodeName>>)
      requires Valid() && DistinctSeedKeys(seeds)
      requires SeedKeys(seeds) !! registeredKeys
      requires SeedKeys(seeds) <= dataTypes.Keys && SeedKeys(seeds) <= store.data.Keys
      modifies this`dataTypes, store
      ensures Valid()
      ensures outcome == Pass <==> InputsValid(graph, old(dataTypes))
      ensures outcome.Fail? ==>
        && ErrorExplained(graph, old(dataTypes), outcome.error) && FirstFailure(graph, old(dataTypes), outcome.error)
        && executed == []
        && dataTypes == old(dataTypes) && store.data == old(store.data)
      ensures outcome == Pass ==>
        && ComponentSchedule(graph, comps, orders, executed)
        && IsTopologicalOrder(executed, graph.vertices, graph.edges)
        && Runnable(graph.attrs, executed)
        && dataTypes == old(dataTypes) - SeedKeys(seeds)
        && store.data == Execute(graph.attrs, merges, executed, old(store.data)) - SeedKeys(seeds)
        && (forall v :: v in graph.attrs ==> graph.attrs[v].outputKey in store.data)
    {
      outcome, executed, comps, orders := ValidateAndExecute(store, graph, dataTypes, merges);
      if outcome.Fail? {
        return;
      }
      ghost var ran := store.data;
      RemoveInputsData(seeds);
      OutputsSurvive(graph.attrs, ran, SeedKeys(seeds), registeredKeys);
    }

    /** `get_data`: fails exactly when the store has no entry for the key. */
    function GetData(key: Key): (r: Result<Value>)
      reads store
      ensures r.Success? <==> key in store.data
      ensures r.Success? ==> r.value == store.data[key]
      ensures r.Failure? ==> r.error == MissingData(key)
    {
      if !store.Exist(key) then Failure(MissingData(key)) else Success(store.Get(key))
    }

    /** `clear_data`: empties the store and nothing else; every lookup then fails. */
    method ClearData()
      modifies store
      ensures store.data == map[]
      ensures forall k :: GetData(k) == Failure(MissingData(k))
    {
      store.Clear();
    }

    /**
     * `clear_nodes`: forgets every node, edge, type and merge setting but
     * not the store; validation then passes, so a later run without seeds
     * succeeds.
     */
    method ClearNodes()
      modifies this`graph, this`dataTypes, this`merges, this`registeredNames, this`registeredKeys
      ensures graph == EmptyGraph && dataTypes == map[] && merges == map[]
      ensures registeredNames == {} && registeredKeys == {}
      ensures Valid()
      ensures InputsValid(graph, dataTypes)
    {
      graph := EmptyGraph;
      dataTypes := map[];
      merges := map[];
      registeredNames := {};
      registeredKeys := {};
      EmptyAcyclic();
    }
  }

  /**
   * Removing the seeds keeps every node's output: output keys are
   * registered, and seed keys never are.
   */
  lemma OutputsSurvive(attrs: map<NodeName, NodeAttrs>, data: map<Key, Value>, seedKeys: set<Key>,
                       registered: set<Key>)
    requires RegisteredOutputs(attrs) <= data.Keys && RegisteredOutputs(attrs) <= registered
    requires seedKeys !! registered
    ensures forall v :: v in attrs ==> attrs[v].outputKey in data - seedKeys
  {
    forall v | v in attrs ensures attrs[v].outputKey in data - seedKeys {
      assert attrs[v].outputKey in RegisteredOutputs(attrs);
    }
  }

  /** The empty graph has no cycle. */
  lemma EmptyAcyclic()
    ensures !HasCycle({}, {})
  {
    forall w: seq<NodeName> | |w| > 0 ensures w[0] !in {} {
    }
  }
}
