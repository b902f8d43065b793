# pipe-by-schema pipeline engine, in Dafny

This project models the dataflow engine of `pipe-by-schema`, in both of its versions.

- **The two pipelines.** The current `pipesche` `Pipeline` and the legacy `spima` `Pipeline` are modelled.
- **The two stores.** The keyed in-memory stores the pipelines read from and write to are modelled too.

A pipeline keeps a registry and runs against a store:

- **Registry.** The registry holds the node graph, a key → type-annotation map, merge settings, and the sets of registered node names and keys.
- **Running.** `run` does three things, in this order:
  - it seeds the store;
  - it checks every node's declared input type against the type registered for its input key;
  - it executes every weakly-connected component of the graph in a topological order. Each node's payload comes from the store, directly or through a merge function, and its result goes back under its output key.
- **Seed removal.** The `pipesche` version then deletes the seeds again; the `spima` version keeps them.

The stores and the pipelines are classes whose methods update their fields. The execution loops are methods with loop invariants. Each method is proved against functions that give the meaning of a run:

- `Engine.Payload` resolves a payload;
- `Engine.Execute` is the fold of node steps over an execution order;
- `Engine.InputsValid` says when validation passes.

The networkx calls are written out:

- an adjacency search for weakly-connected components (`Digraph`);
- Kahn's algorithm with cycle detection (`TopoSort`).

Lemmas show that Kahn's algorithm leaves nodes out exactly when the graph has a directed cycle.

Modules:

- `Values`: the value universe, type tags, error kinds.
- `Digraph`: graphs and weak components.
- `TopoSort`: topological order and cycles.
- `DataStore` and `SpimaDataStore`: the two stores.
- `Engine`: what both pipelines share, namely node records, payloads, validation, execution, seeds and registry consistency.
- `Pipesche` and `Spima`: the two `Pipeline` classes.
- `Scenarios`: the sequencing example from the repository's tests.

## Model

| member | source | states |
|---|---|---|
| DataStore.Lookup | pipesche/core/datastore/in_memory.py:10-11 | `dict.get`: an absent key reads as `None`, a present key reads as its value |
| DataStore.InMemoryDataStore.constructor | pipesche/core/datastore/in_memory.py:7-8 | a new store is empty |
| DataStore.InMemoryDataStore.Get | pipesche/core/datastore/in_memory.py:10-11 | `get` never fails: `None` for an absent key, else the stored value |
| DataStore.InMemoryDataStore.Exist | pipesche/core/datastore/in_memory.py:13-14 | `exist(k)` holds exactly when `k` is a key of the dict |
| DataStore.InMemoryDataStore.Set | pipesche/core/datastore/in_memory.py:16-17 | afterwards `get(k) == v` and `exist(k)`; an old value is overwritten; every other key keeps its value and existence |
| DataStore.InMemoryDataStore.Delete | pipesche/core/datastore/in_memory.py:19-20 | removes exactly `k` when present; when absent, fails with a key error and changes nothing; `k` never exists afterwards |
| DataStore.InMemoryDataStore.Clear | pipesche/core/datastore/in_memory.py:22-23 | afterwards no key exists and every `get` is `None` |
| SpimaDataStore.InMemoryDataStore.constructor | spima/core/datastore/in_memory.py:7-8 | a new store is empty |
| SpimaDataStore.InMemoryDataStore.Get | spima/core/datastore/in_memory.py:10-11 | `get` is `dict.get`: `None` for an absent key |
| SpimaDataStore.InMemoryDataStore.Set | spima/core/datastore/in_memory.py:13-14 | afterwards `get(k) == v`, and every other key reads as before |
| SpimaDataStore.InMemoryDataStore.Delete | spima/core/datastore/in_memory.py:16-17 | removes exactly `k`; fails with a key error and changes nothing when `k` is absent |
| SpimaDataStore.InMemoryDataStore.Clear | spima/core/datastore/in_memory.py:19-20 | afterwards the dict is empty |
| Digraph.WeaklyConnectedComponents | pipesche/core/pipeline/pipeline.py:64-66 | the components are pairwise disjoint and together are the vertex set; each is nonempty, connected when edge direction is ignored, and has no edge leaving or entering it |
| TopoSort.TopologicalSort | pipesche/core/pipeline/pipeline.py:68 | Kahn's algorithm returns distinct nodes of the set in an order that respects every edge; it returns all of them (a topological order) exactly when the set has no directed cycle. The order is closed under predecessors, and it is maximal: every node left out has a predecessor among the nodes left out |
| TopoSort.BlockedRest | pipesche/core/pipeline/pipeline.py:68 | when no remaining node has in-degree zero, every remaining node has a predecessor among the remaining nodes |
| TopoSort.UpstreamDequeued | pipesche/core/pipeline/pipeline.py:68-80 | in a predecessor-closed order that respects the edges, every node with a directed path to an ordered node is itself ordered, and earlier |
| TopoSort.DequeuedAcyclic | pipesche/core/pipeline/pipeline.py:68-80 | no node of such an order lies on a directed cycle |
| TopoSort.CycleBlocksOrder | pipesche/core/pipeline/pipeline.py:68 | a node set with a directed cycle has no topological order, which is why sorting must fail on it |
| TopoSort.StuckHasCycle | pipesche/core/pipeline/pipeline.py:68 | a nonempty set in which every node has a predecessor inside the set contains a directed cycle, so Kahn's algorithm stalls only on a cycle |
| TopoSort.CycleIsStuck | pipesche/core/pipeline/pipeline.py:68 | conversely, the nodes of a cycle all have a predecessor among themselves |
| TopoSort.CycleInSuperset | pipesche/core/pipeline/pipeline.py:64-68 | a cycle inside one component is a cycle of the whole graph |
| TopoSort.AppendOrders | pipesche/core/pipeline/pipeline.py:101-112 | running one component's topological order after another's, with no edge from the second back into the first, is a topological order of both together |
| Engine.NodeGraph.AddNode | pipesche/core/pipeline/pipeline.py:39 | `add_node` puts the vertex in the graph with exactly the given attributes; every other vertex keeps its attributes, the edges are unchanged, and a well-formed graph stays well-formed |
| Engine.NodeGraph.AddEdge | pipesche/core/pipeline/pipeline.py:61 | `add_edge` adds the edge and both endpoints as vertices; no other edge appears or disappears, attributes are unchanged, and a well-formed graph stays well-formed |
| Engine.Payload | pipesche/core/pipeline/pipeline.py:129-137 | three cases: no input key gives `None` (line 110); a key that is not a merge key reads the store (`None` when absent); a merge key applies its merge function to its source keys' store values, in order |
| Engine.GatherValues | pipesche/core/pipeline/pipeline.py:130-134 | the merge function gets one argument per source key, in the declared order; each is that key's store value, or `None` when absent |
| Engine.PayloadLocal | pipesche/core/pipeline/pipeline.py:129-137 | a payload depends on the store only through its source keys: the input key itself, or a merge key's source keys |
| Engine.StepEffect | pipesche/core/pipeline/pipeline.py:107-112 | one node's turn adds exactly its output key to the store, holding what `run` returns on the payload resolved before the turn; every other key reads as before |
| Engine.ExecuteFrame | pipesche/core/pipeline/pipeline.py:106-112 | after running an order, the store's keys are the old keys plus the nodes' output keys; every other key keeps its value |
| Engine.ExecuteWritesOutput | pipesche/core/pipeline/pipeline.py:106-112 | with no repeated node and distinct output keys, each node's output key ends up holding what `run` returned on the payload the node saw at its turn |
| Engine.ExecuteKeepsAfter | pipesche/core/pipeline/pipeline.py:106-112 | a key that no later node writes keeps the value it had after a given node's turn |
| Engine.ExecuteLastKeeps | pipesche/core/pipeline/pipeline.py:111-112 | the last node's turn leaves every key other than its own output key as the nodes before it left it |
| Engine.ConnectedPayload | pipesche/core/pipeline/pipeline.py:106-112 | along a `connect` edge whose consumer reads the producer's output key directly, the producer runs first and the consumer's payload is exactly the producer's result |
| Engine.CheckNode | pipesche/core/pipeline/pipeline.py:70-80 | passes exactly when the vertex carries node attributes, and when its input key (if any) has a registered non-`None` tag equal to the node's payload tag; each failure names a real defect |
| Engine.CheckOrder | pipesche/core/pipeline/pipeline.py:69-80 | passes exactly when every node of the order passes its check; on failure, the reported error is the check of a node of the order all of whose predecessors in the order passed (the first failing node), and it is explained |
| Engine.ValidateNodesInput | pipesche/core/pipeline/pipeline.py:63-80 | passes exactly when every vertex is a registered node whose input check passes and the graph has no cycle; every failure names a real defect and is a possible first failure (`FirstFailure`): a node error comes from a node off every cycle whose upstream nodes all pass, and a cycle error comes from a component in which every node outside a stuck remainder passes |
| Engine.ValidateComponent | pipesche/core/pipeline/pipeline.py:67-80 | one component: passes exactly when every node of it is registered with a valid input and it has no cycle; a failure is either the cycle error for a component that has a cycle or the check error of one of its own nodes, and it names a real defect and is a possible first failure |
| Engine.NodeFailureFirst | pipesche/core/pipeline/pipeline.py:67-80 | the first failing node of a component's predecessor-closed order has only passing upstream nodes and lies below no cycle, so its error is a possible first failure |
| Engine.CycleFailureFirst | pipesche/core/pipeline/pipeline.py:67-80 | when a component's maximal order is partial and every ordered node passes, the cycle error is a possible first failure |
| Engine.CycleInComponent | pipesche/core/pipeline/pipeline.py:64-68 | a directed cycle through a component stays inside it |
| Engine.AcyclicByComponents | pipesche/core/pipeline/pipeline.py:64-68 | when no component has a cycle, the graph has none |
| Engine.AcyclicSubset | pipesche/core/pipeline/pipeline.py:98-102 | a subset of an acyclic graph is acyclic, so every component of a validated graph sorts completely |
| Engine.ExecuteAppend | pipesche/core/pipeline/pipeline.py:101-112 | running two orders one after the other is the same as running their concatenation |
| Engine.RunOrder | pipesche/core/pipeline/pipeline.py:106-112 | the per-node loop leaves the store equal to the fold of node steps over the order |
| Engine.ExecuteGraph | pipesche/core/pipeline/pipeline.py:98-112 | the component schedule (`ComponentSchedule`): the weakly-connected components are disjoint and cover the graph; each gets its own topological order, and the executed sequence is those orders run one after another, each to completion; every vertex runs exactly once, producers before consumers; the store ends as the fold over that sequence |
| Engine.ValidateAndExecute | pipesche/core/pipeline/pipeline.py:97-112 | no node runs and the store is untouched when validation fails, and the error is a possible first failure; otherwise the nodes run by the component schedule (each component to completion in its own topological order, which is also a topological order of the whole graph), the store's keys grow by exactly the registered output keys, and every other key is unchanged |
| Engine.SeedEntries | pipesche/core/pipeline/pipeline.py:118-122 | each seed is written under its own key, with its value and with the tag `type(value)`; nothing else is written |
| Engine.SeedDomains | pipesche/core/pipeline/pipeline.py:118-122 | the seed entries are keyed by exactly the seed keys |
| Engine.SeedAt | pipesche/core/pipeline/pipeline.py:118-122 | a seed is not overwritten by later seeds under other keys |
| Engine.FirstRegistered | pipesche/core/pipeline/pipeline.py:118-120 | the position where seeding stops: every earlier seed key is unregistered, and the seed at that position (if any) is registered |
| Engine.SeedsUnregistered | pipesche/core/pipeline/pipeline.py:118-120 | when seeding completes, no seed key is a registered key |
| Engine.RegistryAddNode | pipesche/core/pipeline/pipeline.py:28-52 | registering a node under a fresh name and a fresh output key keeps the registry invariant: names are exactly the attributed vertices, output and merge keys are distinct and are exactly the registered keys, and each is typed by its producer's `return` tag |
| Engine.RegistryMerge | pipesche/core/pipeline/pipeline.py:85-91 | registering a merge under a fresh key keeps the registry invariant |
| Engine.RegistryAddEdge | pipesche/core/pipeline/pipeline.py:54-61 | adding an edge, and any bare endpoint vertices, keeps the registry invariant |
| Engine.RegistryRetype | pipesche/core/pipeline/pipeline.py:117-127 | seeds that write or delete types of unregistered keys keep the registry invariant |
| Pipesche.Pipeline.constructor | pipesche/core/pipeline/pipeline.py:20-26 | a new pipeline is empty, uses the given store, and satisfies the registry invariant |
| Pipesche.Pipeline.AddNode | pipesche/core/pipeline/pipeline.py:28-52 | the output key defaults to the node name. A registered name fails with a duplicate-name error and changes nothing. A registered output key fails with a duplicate-key error and changes nothing. Otherwise the call registers the name and the key, types the key by the `return` tag, and puts the node, its input key and its output key on the vertex. |
| Pipesche.Pipeline.Connect | pipesche/core/pipeline/pipeline.py:54-61 | adds the edge, and unknown endpoints as bare vertices; the registry invariant is kept |
| Pipesche.Pipeline.MergeData | pipesche/core/pipeline/pipeline.py:85-91 | a registered key fails and changes nothing; otherwise the key is typed by the merge function's `return` tag and registered, and its source keys are recorded in order |
| Pipesche.Pipeline.GetNode | pipesche/core/pipeline/pipeline.py:82-83 | succeeds exactly for registered names, returning that node. An unknown name is a key error on the vertex; a bare vertex is a key error on its missing attributes. |
| Pipesche.Pipeline.SetupInputsData | pipesche/core/pipeline/pipeline.py:117-122 | writes the seeds in order, typed by `type(value)`. It stops with a duplicate-key error at the first registered key; the seeds before it stay written. |
| Pipesche.Pipeline.RemoveInputsData | pipesche/core/pipeline/pipeline.py:124-127 | removes exactly the seed keys from the type map and from the store |
| Pipesche.Pipeline.Run | pipesche/core/pipeline/pipeline.py:93-115 | see the description of `run` below the table |
| Pipesche.Pipeline.ExecuteSeeded | pipesche/core/pipeline/pipeline.py:97-115 | the part of `run` after seeding: validation passes exactly when the inputs are valid; on failure the error is a possible first failure, no node runs and nothing changes; on success the nodes run by the component schedule, and afterwards the seed keys are gone from the type map and the store while every node's output stays |
| Pipesche.OutputsSurvive | pipesche/core/pipeline/pipeline.py:114-115 | removing the seeds never removes a node's output, because output keys are registered and seed keys are not |
| Pipesche.Pipeline.GetData | pipesche/core/pipeline/pipeline.py:139-142 | fails with a missing-data error exactly when the store lacks the key; otherwise returns the stored value |
| Pipesche.Pipeline.ClearData | pipesche/core/pipeline/pipeline.py:144-145 | empties the store only; every `get_data` then fails |
| Pipesche.Pipeline.ClearNodes | pipesche/core/pipeline/pipeline.py:147-152 | empties graph, types, merges, names and keys but not the store; validation then passes, so a later run without seeds succeeds |
| Pipesche.EmptyAcyclic | pipesche/core/pipeline/pipeline.py:147-152 | the cleared graph has no cycle |
| Spima.Pipeline.constructor | spima/core/pipeline/pipeline.py:18-24 | a new pipeline is empty and uses the given store |
| Spima.Pipeline.AddNode | spima/core/pipeline/pipeline.py:26-45 | the same defaulting, duplicate checks before any change, and registration effects as the `pipesche` version |
| Spima.Pipeline.Connect | spima/core/pipeline/pipeline.py:47-48 | adds exactly the edge between the two nodes' names, and their vertices; attributes are unchanged and cycles are not checked |
| Spima.Pipeline.GetNode | spima/core/pipeline/pipeline.py:65-66 | as in the `pipesche` version |
| Spima.Pipeline.SetupInputsData | spima/core/pipeline/pipeline.py:68-73 | seeds are checked only against registered keys, are typed by `type(value)` and are written in order; the first registered key stops seeding |
| Spima.Pipeline.MergeInputs | spima/core/pipeline/pipeline.py:75-81 | a registered key fails and changes nothing; otherwise the key is typed by the merge function's `return` tag and registered, and its source keys are recorded in order |
| Spima.Pipeline.Run | spima/core/pipeline/pipeline.py:83-106 | seeding, validation (failing with a possible first failure) and execution (by the component schedule) as in `pipesche`, but the seeds stay: after a successful run, the type map holds the seed tags and every seed is still in the store with its value |
| Spima.Pipeline.GetData | spima/core/pipeline/pipeline.py:108-111 | fails exactly when the store lacks the key |
| Spima.Pipeline.ClearData | spima/core/pipeline/pipeline.py:113-114 | empties the store; every `get_data` then fails |
| Scenarios.SequenceOrders | tests/core/pipeline/test_pipeline.py:44-71 | in the sequencing test's graph, a node order is valid exactly when it is node1, node2, node4, node3 or node2, node1, node4, node3 |
| Scenarios.OnlyTwoOrders | tests/core/pipeline/test_pipeline.py:62-65 | no other order of that graph respects its edges |
| Scenarios.BothOrdersValid | tests/core/pipeline/test_pipeline.py:62-65 | both of those orders respect every edge |
| Scenarios.NodeFourBeforeNodeTwo | tests/core/pipeline/test_pipeline.py:68 | the test's first accepted result, 1, 4, 2, 3, corresponds to an order that breaks the edge from node2 to node4, so no run produces it |

Here is what `Pipesche.Pipeline.Run` promises (pipesche/core/pipeline/pipeline.py:93-115).

- **A seed key is already registered.** The run fails with a duplicate-key error and no node runs. The seeds before that key stay in the type map and in the store.
- **Seeding completes.** Validation runs on the type map as it stands after seeding. It passes exactly when the inputs are valid.
- **Validation fails.** The error names a real defect, no node runs, and the seeds stay. The error is one the source can raise first: either a node error from a node whose upstream nodes all pass and which lies below no cycle, or a cycle error from a component whose nodes outside a stuck remainder all pass.
- **Validation passes.** The nodes run component by component: each weakly-connected component runs to completion in its own topological order before the next one starts. The sequence as a whole is a topological order of the graph. The store ends as the fold of their steps over the seeded store, minus the seed keys. The seed keys are also gone from the type map. Every node's output is still in the store.

## Left out

- **Engine.Execute and Engine.Step.** These functions carry no contract of their own. `StepEffect`, `ExecuteFrame`, `ExecuteWritesOutput`, `ExecuteKeepsAfter` and `ExecuteAppend` state their meaning.
- **networkx order choices.** Tie-breaking inside a topological sort and the order in which components are visited are not modelled. The model allows any topological order and any component order.
- **Logging.** The order banner at pipesche/core/pipeline/pipeline.py:103-105 is not modelled. It has no effect on behaviour.
- **User code.** Node `run` methods and merge functions are arbitrary function values.
  - Errors they raise are not modelled, and neither is a mismatch between the merge function's arity and the number of source keys.
  - `__annotations__` lookups become explicit tags: a missing annotation and a `-> None` annotation are both `None`.
  - Type compatibility is equality of tags, not Python's type system.
- **Values.** Values come from a closed datatype, and `type(value)` is `Values.TypeOf` on it.
- **Base classes.** The node base classes, the abstract store interface and the package re-exports have no logic and are not modelled.
- **Shared default store.** The default `InMemoryDataStore()` argument is shared by every default-constructed pipeline. Here the store is passed to the constructor, and aliasing between pipelines is not modelled.
- **spima store in the spima pipeline.** The legacy store has no `exist`, so in Python it cannot be instantiated. The legacy pipeline's `get_data` calls `exist` anyway. `Spima.Pipeline` therefore runs against the current store class (which has `Exist`). `SpimaDataStore` models the legacy store file on its own.
- **Exceptions.** Exception classes and messages become the variants of `Values.Error`, carried by `Outcome` and `Result` values.
- **Inputs to `run`.** `run(None)` and `run({})` behave alike and are both `Run([])`. The dict's items, in insertion order, are a sequence with distinct keys; that is what the `DistinctSeedKeys` precondition states.
- **Run's out-parameter.** `Run` also returns `executed`, the order in which the nodes ran. Python's `run` returns nothing.
- Pipesche.Pipeline.RemoveInputsData: requires every seed key to be in the type map and the store. That always holds when `run` calls it, so the key error `del` would raise otherwise is not modelled.
- Pipesche.Pipeline.GetNode: requires the registry invariant. Without it, the result could not be tied to the node's own name.
- **List aliasing.** Python code holding on to a merge's key list could later mutate it. That is not modelled: the keys are recorded as a value.
