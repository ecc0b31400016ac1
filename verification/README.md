# dependency-cascade in Dafny

`dependency-cascade` decides which modules of a monorepo a change touches.
Each module is a node. A node has a unique name, a base path, include and
exclude glob patterns, and the names of the nodes it depends on. The nodes
form a dependency graph with one edge from each dependency to the node that
depends on it. A file change affects every node that includes a changed file,
plus every node downstream of it.

This project models the core of that program as immutable Dafny data and
proves properties of it:

- `nodes.dfy`: `Node::new` and `Node::includes_path`. Patterns are resolved
  against the node's base path the way `PathBuf::join` does it (`paths.dfy`).
  The glob engine is a parameter: a `compile` function that may reject a
  pattern and a `matches` predicate.
- `reachability.dfy`: the graph the nodes declare, independent of any data
  structure. It defines a step along a declared dependency, walks,
  reachability in both directions, and cycles. The upstream and downstream
  relations are mirror images of each other.
- `graph.dfy`: the built graph. It holds the vertices in insertion order, the
  name index and the edge list. `Valid` ties all three to the declared graph.
  It also models `get_node`, `get_all_nodes`, and petgraph's neighbour
  listing, which lists the newest edge first.
- `traversal.dfy`: the stack-and-visited-set traversal behind
  `get_dependents` and `get_dependencies`, and `get_affected_nodes`.
- `construction.dfy`: `DependencyGraph::new`, in its four passes. These are
  the duplicate check, the index, the edges with the missing-dependency
  check, and the cycle check with its cycle trace.
- `commands.dfy`: `query`, which resolves the affected names back to nodes.
- `scenarios.dfy`: the node lists of two unit tests in `src/types/graph.rs`,
  with the reachability they imply, plus one graph that shows the cycle trace
  leaving a cycle.
- `graph_tests.dfy`: nine of the ten unit tests in `src/types/graph.rs`, each
  as a method that builds the test's nodes with `Construction.New` and
  returns what the test inspects. The `ensures` clauses are the test's
  assertions.

Where the code and its documentation differ, the model follows the code:

- A node's dependencies are an ordered list that may repeat a name. A
  repeated name gives parallel edges, which change no reachability property.
- The cycle trace follows each vertex's first outgoing neighbour. It stops
  when a vertex repeats or when a vertex has no outgoing edge. In the second
  case the reported chain is not a cycle (`Scenarios.TraceCanLeaveCycle`).
  The model states what the error does promise: the chain is the names along
  the first-edge walk from a vertex that lies on a cycle, cut back to start at
  the repeated vertex when the walk closes. Every consecutive pair is a real
  dependency, and the chain either closes or ends at a vertex that nothing
  depends on.
- Dependents and dependencies mirror each other on every graph, cyclic or not.
  On a cyclic graph, a node is its own dependent exactly when it lies on a
  cycle.

## Model

| member | source | states |
|---|---|---|
| Nodes.NewNode | src/types/node.rs:66-75 | creation fails exactly when no include pattern is given, with the node's name in the error; otherwise every field is kept as given |
| Nodes.AnyPatternMatches | src/types/node.rs:124-131 | true exactly when some pattern, joined onto the base path, compiles and matches the path; a pattern that fails to compile counts as no match |
| Nodes.IncludesPath | src/types/node.rs:122-145 | a path is included exactly when some include pattern matches it and no exclude pattern does |
| Nodes.ExclusionWins | src/types/node.rs:136-144 | a path matched by any exclude pattern is never included, whatever the include patterns say |
| Nodes.MalformedIncludesMatchNothing | src/types/node.rs:128-130 | a node whose include patterns all fail to compile includes no path, and no error is raised |
| Nodes.MalformedExcludeIgnored | src/types/node.rs:139-141 | removing an exclude pattern that fails to compile leaves every answer unchanged |
| Nodes.NoExcludesMeansAnyInclude | src/types/node.rs:122-145 | with no exclude patterns, inclusion is exactly a match by some include pattern |
| Reachability.ReachesAppend | src/types/graph.rs:149-159 | a walk extended by one step still reaches its new end |
| Reachability.ClosedSetHoldsReachable | src/types/graph.rs:149-159 | a set that contains the start's successors and is closed under steps contains every reachable vertex |
| Reachability.ReverseWalk | src/types/graph.rs:125-134 | a reversed walk is a walk in the opposite direction |
| Reachability.DependentIffDependency | src/types/graph.rs:115-162 | `b` is downstream of `a` exactly when `a` is upstream of `b`, on every graph |
| Reachability.ClosedWalkIsCycle | src/types/graph.rs:93-98 | every vertex on a closed walk lies on a cycle |
| Reachability.ListedFirstEdgeAscends | src/types/graph.rs:60-79 | when every node names only nodes listed before it, each edge runs from an earlier node to a later one |
| Reachability.ListedFirstWalkAscends | src/types/graph.rs:81-83 | so a forward walk climbs at least one position per step |
| Reachability.ListedFirstIsAcyclic | src/types/graph.rs:60-83 | so such nodes leave no dependency unresolved and declare no cycle, and the cycle check passes |
| Graph.Neighbours | src/types/graph.rs:150-153 | the listed neighbours are exactly the far ends of the edges at the vertex in the given direction |
| Graph.NeighboursAreSteps | src/types/graph.rs:150-153 | in a valid graph, the listed neighbours are exactly the one-step successors in the declared graph |
| Graph.ValidNeighboursExact | src/types/graph.rs:150-153 | in a valid graph, the neighbour listing in either direction is exactly the set of one-step successors |
| Graph.GetNode | src/types/graph.rs:164-169 | returns a node exactly when the name is declared, and then the vertex of that name |
| Graph.GetAllNodes | src/types/graph.rs:164-174 | in a valid graph, every listed node is found by its own name, every node found by name is listed, and no name is listed twice; the vertices appear in insertion order, so after `Construction.New` succeeds these are the input nodes in order |
| Traversal.ExpandVertex | src/types/graph.rs:150-158 | expanding one popped vertex keeps the found list exact: each new neighbour is marked, recorded and pushed once |
| Traversal.Walk | src/types/graph.rs:142-162 | the traversal returns each vertex reachable in one or more steps exactly once; the start is included only if it lies on a cycle |
| Traversal.Related | src/types/graph.rs:118-162 | an unknown name gives nothing; otherwise the result is exactly the nodes reachable from the named one, each name once |
| Traversal.GetDependents | src/types/graph.rs:140-162 | exactly the nodes that depend on the named one, directly or not, each once; the node itself is among them exactly when it lies on a cycle |
| Traversal.GetDependencies | src/types/graph.rs:115-138 | exactly the nodes the named one depends on, directly or not, each once |
| Traversal.OwnsAny | src/types/graph.rs:183-191 | true exactly when the node includes at least one changed file |
| Traversal.Elements | src/types/graph.rs:195 | lists every element of the set exactly once |
| Traversal.AffectedStep | src/types/graph.rs:181-193 | after each node is visited, the affected set holds exactly the names reached from owners seen so far |
| Traversal.GetAffectedNodes | src/types/graph.rs:176-196 | each name once; a name is listed exactly when its node includes a changed file or depends, directly or not, on one that does; no owner means an empty result |
| Traversal.AffectedMonotone | src/types/graph.rs:176-196 | changing more files never removes an affected name |
| Construction.FirstDuplicate | src/types/graph.rs:47-52 | reports a name exactly when names repeat, and then the first name that repeats an earlier one |
| Construction.BuildIndex | src/types/graph.rs:54-58 | the index maps each name to its node's position and holds nothing else |
| Construction.NodeEdgeListExact | src/types/graph.rs:65-77 | one node's edge list holds exactly the edges from each named dependency into that node |
| Construction.EdgesBeforeExact | src/types/graph.rs:60-79 | the edges of the first `n` nodes are exactly the declared edges into those nodes |
| Construction.InsertNodeEdges | src/types/graph.rs:63-78 | one node's edges: its dependency edges are appended in declaration order, or the first dependency the index lacks is reported |
| Construction.MissingError | src/types/graph.rs:70-76 | the missing-dependency error names the first unresolved dependency, its dependent, and every known name exactly once |
| Construction.InsertEdges | src/types/graph.rs:60-79 | succeeds exactly when every dependency names a node, giving exactly the declared edges, in the order node by node and dependency by dependency; otherwise reports the first missing dependency, its dependent, and every known name once |
| Construction.BlockingVertex | src/types/graph.rs:81-83 | reports a vertex exactly when the graph has a cycle, and that vertex lies on one |
| Construction.FirstOutgoing | src/types/graph.rs:91 | the trace's next vertex is the far end of an outgoing edge; none means the vertex has no outgoing edge |
| Construction.TrimTo | src/types/graph.rs:93-98 | trimming keeps a suffix of the record, and that suffix starts at the repeated vertex |
| Construction.TailOfTrace | src/types/graph.rs:93-98 | a suffix of the record is still a distinct walk of first edges, from a vertex reachable from the start |
| Construction.ExtendTrace | src/types/graph.rs:91-100 | recording a new vertex keeps the record a distinct walk of first edges from the start |
| Construction.TraceCycle | src/types/graph.rs:84-101 | the chain is a suffix of the first-edge walk from the start, with distinct vertices; it either closes on itself or ends, starting at the start, at a vertex with no outgoing edge |
| Construction.ClosedTraceIsCycle | src/types/graph.rs:93-98 | when the trace closes, every vertex on it lies on a cycle |
| Construction.Assemble | src/types/graph.rs:41-79 | the first three passes: the duplicate and missing-dependency errors hold exactly in their cases, and success gives a valid graph of the input nodes in order, its edges in insertion order |
| Construction.CycleError | src/types/graph.rs:103-108 | the cycle error names the trace from the given vertex: declared nodes, each next one depending on the previous one, with the first name repeated |
| Construction.New | src/types/graph.rs:41-113 | each error occurs exactly when its check is the first to fail; a cycle is reported exactly when cycles are disallowed and one exists, and its chain is the trace, in the graph as built, from a vertex on a cycle; success gives the graph as built from the input nodes, acyclic unless cycles were allowed |
| Commands.Lookup | src/commands.rs:56-59 | each name is resolved through the index, unknown names are skipped, and no node appears twice |
| Commands.Query | src/commands.rs:54-60 | exactly the affected nodes, each once; no changed files gives no nodes |
| Scenarios.CircularNodesHaveCycle | src/types/graph.rs:256-266 | the three-node ring is well-formed but cyclic, so building it with cycles disallowed fails |
| Scenarios.ChainDependencies | src/types/graph.rs:280-304 | in the test chain, the dependencies of `c` are exactly `a` and `b` |
| Scenarios.OffCycleEdgeList | src/types/graph.rs:60-79 | for the nodes `a <-> b` and `c -> a`, the edge pass inserts `b->a`, `a->b`, `a->c` in that order |
| Scenarios.OffCycleGraphValid | src/types/graph.rs:60-79 | the graph of those nodes with that edge list is valid |
| Scenarios.OffCycleGraphBuilt | src/types/graph.rs:41-79 | that graph is the one the first three passes build |
| Scenarios.OffCycleIsBuilt | src/types/graph.rs:41-79 | any graph built from those nodes is that graph |
| Scenarios.OffCycleFirstEdges | src/types/graph.rs:91 | in that graph, `a` is followed first by `c`, `b` by `a`, and `c` by nothing |
| Scenarios.OffCycleTraceEndsAtC | src/types/graph.rs:84-101 | in that graph every first-edge trace ends at `c` |
| Scenarios.OffCycleAOnCycle | src/types/graph.rs:81-83 | `a` lies on a cycle |
| Scenarios.OffCycleCIsNotOnCycle | src/types/graph.rs:81-83 | `c` lies on no cycle |
| Scenarios.TraceCanLeaveCycle | src/types/graph.rs:84-108 | the trace from `a`, which lies on a cycle, is `a, c`, and `c` lies on no cycle |
| Scenarios.OffCycleReportEndsAtC | src/types/graph.rs:103-108 | every chain reported from that graph ends with `c` |
| Scenarios.OffCycleErrorEndsAtC | src/types/graph.rs:41-113 | so the cycle error `Construction.New` gives for those nodes ends with `c`, a node on no cycle |
| GraphTests.BuildListedFirst | src/types/graph.rs:41-113 | distinct nodes that name only earlier nodes always build, into a valid graph of those nodes |
| GraphTests.DependencyNames | src/types/graph.rs:115-138 | the names `get_dependencies` returns are exactly the names of the nodes the given one depends on |
| GraphTests.DependentNames | src/types/graph.rs:140-162 | the names `get_dependents` returns are exactly the names of the nodes that depend on the given one |
| GraphTests.CreationSucceeds | src/types/graph.rs:217-230 | the three-node line builds, `a`, `b` and `c` are found by name and `d` is not |
| GraphTests.DuplicateNameRejected | src/types/graph.rs:233-241 | two nodes named `a` give exactly the duplicate-name error for `a` |
| GraphTests.MissingDependencyReported | src/types/graph.rs:244-254 | a node `a` depending on `missing` gives the missing-dependency error for `missing` and `a`, with `a` the only known name |
| GraphTests.CircularRejected | src/types/graph.rs:257-266 | the three-node ring is rejected as circular when cycles are disallowed |
| GraphTests.CyclesAllowed | src/types/graph.rs:269-278 | the same ring builds when cycles are allowed, and `a` is found |
| GraphTests.DependenciesOfChain | src/types/graph.rs:281-304 | in the test chain, `c` depends on exactly `a` and `b`, and `a` on nothing |
| GraphTests.DependentsOfFork | src/types/graph.rs:307-330 | `b`, `c` and `d` depend on `a`, and nothing depends on `c` |
| GraphTests.ComplexChain | src/types/graph.rs:333-355 | `e` depends, directly or not, on exactly `a`, `b`, `c` and `d` |
| GraphTests.AllNodesCounted | src/types/graph.rs:358-367 | a graph of two nodes lists two nodes |

## Left out

- `Node::from_toml_str` (src/types/node.rs:86-112): TOML and serde parsing is outside the model. Its dependency list comes from a hash map, so its order is unspecified anyway.
- The `prepare` command (src/commands.rs) and path handling in `src/main.rs`: directory walking, file reading, prefix stripping and the CLI are I/O.
- The JSON and serde form of the graph and of nodes: `src/main.rs` writes the graph with `serde_json::to_string` and `query` reads it back with `serde_json::from_reader`. This is serialization, not graph logic.
- The `Prepare` arm of `src/main.rs` (lines 68-71) calls `prepare` with two arguments, while `src/commands.rs:18` takes a third, `allow_cyclical`. That call is outside the model; `Construction.New` takes the flag as a parameter.
- Integer width: petgraph's default indices are `u32`, so `add_node` and `add_edge` inside `DependencyGraph::new` panic once the graph holds that many nodes or edges. The model's positions are unbounded `nat`s and never overflow.
- `test_get_affected_nodes` (src/types/graph.rs:370-394): its answer depends on how `src/**/*` and `test/**/*` match concrete paths, which is the glob engine's business and a parameter here. `Traversal.GetAffectedNodes` holds for every glob engine.
- `src/commands/prepare.rs` and `src/commands/query.rs`: they are not reached from `main`.
- Glob semantics: `glob::Pattern` is a parameter (`Nodes.Glob`). No property depends on how a pattern matches.
- `to_str().unwrap()` on a non-UTF-8 joined path panics. Paths here are sequences of string segments, so that panic is not modelled. Windows prefixes and normalisation inside `PathBuf::join` are also left out.
- Construction.BlockingVertex: petgraph's `toposort` reports some vertex on a cycle, chosen by its DFS order. The model reports the lowest-index vertex on a cycle. The contract of `Construction.CycleError` holds for any starting vertex, so it does not depend on this choice.
- Graph.Neighbours: petgraph's newest-edge-first order is modelled. Only the cycle trace and the concrete scenario depend on it.
- Hash map and hash set iteration order: `Elements` and the `known` list of the missing-dependency error promise each element once, in no stated order.
- Error messages: the `Display` strings and the `", "` and `" -> "` joins are left out. The model keeps the names as sequences (`known`, `chain`).
- Node metadata is a small JSON datatype with integer numbers. It is carried through unchanged and never inspected.
- `Node::new` in the model takes its fields directly. Paths are segment lists with an absolute flag rather than OS strings.
