/**
 * `DependencyGraph::new` (`src/types/graph.rs`): four passes, each stopping
 * at its first failure. Duplicate names are rejected, the vertices and the
 * name index are built, one edge is inserted per declared dependency, and,
 * unless cycles are allowed, a cycle is reported with a witness chain.
 */
module Construction {
  import opened Wrappers
  import opened Nodes
  import opened Reachability
  import opened Graph
  import opened Traversal

  /** `n` is the first name in list order that repeats an earlier one. */
  ghost predicate IsFirstRepeat(nodes: seq<Node>, n: Name) {
    exists i :: 0 <= i < |nodes| && nodes[i].name == n && n in NamesOf(nodes[..i]) && DistinctNames(nodes[..i])
  }

  /**
   * `d` is the first unresolvable dependency, in node order and then in the
   * node's own dependency order, and `dependent` is the node that names it.
   */
  ghost predicate IsFirstMissing(nodes: seq<Node>, d: Name, dependent: Name) {
    exists i, k ::
      && 0 <= i < |nodes| && 0 <= k < |nodes[i].dependencies|
      && nodes[i].name == dependent && nodes[i].dependencies[k] == d
      && d !in NamesOf(nodes)
      && ResolvedBefore(nodes, i)
      && forall k' :: 0 <= k' < k ==> nodes[i].dependencies[k'] in NamesOf(nodes)
  }

  /** The node called `b` depends on the node called `a`. */
  ghost predicate NamedEdge(nodes: seq<Node>, a: Name, b: Name) {
    exists u: nat, v: nat :: DeclaredEdge(nodes, u, v) && nodes[u].name == a && nodes[v].name == b
  }

  /** Each consecutive pair of names in `chain` is joined by an edge: the second depends on the first. */
  ghost predicate DependencyChain(nodes: seq<Node>, chain: seq<Name>) {
    forall k :: 0 <= k < |chain| - 1 ==> NamedEdge(nodes, chain[k], chain[k + 1])
  }

  /** The position of the node called `n`; with distinct names it is the only one. */
  ghost function PositionOf(nodes: seq<Node>, n: Name): (r: nat)
    requires n in NamesOf(nodes)
    ensures r < |nodes| && nodes[r].name == n
  {
    var j :| 0 <= j < |nodes| && nodes[j].name == n; j
  }

  /** The edges the node at position `i` declares through `deps`: one per listed name, in list order. */
  ghost function NodeEdgeList(nodes: seq<Node>, i: nat, deps: seq<Name>): seq<Edge>
    requires forall k :: 0 <= k < |deps| ==> deps[k] in NamesOf(nodes)
  {
    seq(|deps|, k requires 0 <= k < |deps| => Edge(PositionOf(nodes, deps[k]), i))
  }

  /** The edges of the first `n` nodes, node by node, each node's in the order it lists its dependencies. */
  ghost function EdgesBefore(nodes: seq<Node>, n: nat): seq<Edge>
    requires n <= |nodes| && ResolvedBefore(nodes, n)
  {
    if n == 0 then []
    else EdgesBefore(nodes, n - 1) + NodeEdgeList(nodes, n - 1, nodes[n - 1].dependencies)
  }

  /** The edge list in the order the third pass inserts it. */
  ghost function DeclaredEdgeList(nodes: seq<Node>): seq<Edge>
    requires DependenciesResolve(nodes)
  {
    EdgesBefore(nodes, |nodes|)
  }

  /** `g` is the graph the first three passes build from its own vertices: valid, with its edges in insertion order. */
  ghost predicate AsBuilt(g: DependencyGraph) {
    Valid(g) && g.edges == DeclaredEdgeList(g.vertices)
  }

  /** With distinct names, a node's edge list holds exactly one edge from each node it names. */
  lemma NodeEdgeListExact(nodes: seq<Node>, i: nat, deps: seq<Name>)
    requires DistinctNames(nodes)
    requires forall k :: 0 <= k < |deps| ==> deps[k] in NamesOf(nodes)
    ensures forall e :: e in NodeEdgeList(nodes, i, deps) ==> e.target == i && e.source < |nodes| && nodes[e.source].name in deps
    ensures forall u: nat :: u < |nodes| && nodes[u].name in deps ==> Edge(u, i) in NodeEdgeList(nodes, i, deps)
  {
    var list := NodeEdgeList(nodes, i, deps);
    forall u: nat | u < |nodes| && nodes[u].name in deps
      ensures Edge(u, i) in list
    {
      var k :| 0 <= k < |deps| && deps[k] == nodes[u].name;
      assert list[k] == Edge(u, i);
    }
  }

  /** The edges of the first `n` nodes are exactly the declared edges into those nodes. */
  lemma {:induction false} EdgesBeforeExact(nodes: seq<Node>, n: nat)
    requires DistinctNames(nodes) && n <= |nodes| && ResolvedBefore(nodes, n)
    ensures forall e :: e in EdgesBefore(nodes, n) ==> e.target < n && DeclaredEdge(nodes, e.source, e.target)
    ensures forall u: nat, v: nat :: v < n && DeclaredEdge(nodes, u, v) ==> Edge(u, v) in EdgesBefore(nodes, n)
  {
    if n > 0 {
      EdgesBeforeExact(nodes, n - 1);
      NodeEdgeListExact(nodes, n - 1, nodes[n - 1].dependencies);
    }
  }

  /** The first pass: scan the names into a set, failing on the first one already present. */
  method FirstDuplicate(nodes: seq<Node>) returns (dup: Option<Name>)
    ensures dup.None? <==> DistinctNames(nodes)
    ensures dup.Some? ==> IsFirstRepeat(nodes, dup.value)
  {
    var seen: set<Name> := {};
    for i := 0 to |nodes|
      invariant forall n :: n in seen <==> n in NamesOf(nodes[..i])
      invariant DistinctNames(nodes[..i])
    {
      if nodes[i].name in seen {
        return Some(nodes[i].name);
      }
      seen := seen + {nodes[i].name};
      assert NamesOf(nodes[..i + 1]) == NamesOf(nodes[..i]) + [nodes[i].name];
    }
    assert nodes[..|nodes|] == nodes;
    return None;
  }

  /** The second pass: give every node its position in the name index. */
  method BuildIndex(nodes: seq<Node>) returns (index: map<Name, nat>)
    requires DistinctNames(nodes)
    ensures IndexesNames(nodes, index)
  {
    index := map[];
    for i := 0 to |nodes|
      invariant forall k :: 0 <= k < i ==> nodes[k].name in index && index[nodes[k].name] == k
      invariant forall n :: n in index ==> index[n] < i && nodes[index[n]].name == n
    {
      index := index[nodes[i].name := i];
    }
  }

  /**
   * The third pass for the node at position `i`: add an edge from each
   * dependency it names, in order, to the node, or stop at the first name the
   * index does not hold and report its position among the dependencies.
   */
  method InsertNodeEdges(nodes: seq<Node>, index: map<Name, nat>, i: nat, edges: seq<Edge>)
    returns (r: Result<seq<Edge>, nat>)
    requires DistinctNames(nodes) && IndexesNames(nodes, index) && i < |nodes|
    ensures r.Ok? ==> forall k :: 0 <= k < |nodes[i].dependencies| ==> nodes[i].dependencies[k] in NamesOf(nodes)
    ensures r.Ok? ==> r.value == edges + NodeEdgeList(nodes, i, nodes[i].dependencies)
    ensures r.Err? ==> && r.error < |nodes[i].dependencies|
                       && nodes[i].dependencies[r.error] !in NamesOf(nodes)
                       && forall k :: 0 <= k < r.error ==> nodes[i].dependencies[k] in NamesOf(nodes)
  {
    var deps := nodes[i].dependencies;
    var out := edges;
    for k := 0 to |deps|
      invariant forall k' :: 0 <= k' < k ==> deps[k'] in NamesOf(nodes)
      invariant out == edges + NodeEdgeList(nodes, i, deps[..k])
    {
      if deps[k] in index {
        assert index[deps[k]] == PositionOf(nodes, deps[k]);
        assert NodeEdgeList(nodes, i, deps[..k + 1]) == NodeEdgeList(nodes, i, deps[..k]) + [Edge(index[deps[k]], i)];
        out := out + [Edge(index[deps[k]], i)];
        assert deps[..k + 1] == deps[..k] + [deps[k]];
      } else {
        return Err(k);
      }
    }
    assert deps[..|deps|] == deps;
    return Ok(out);
  }

  /**
   * The third pass's error: the `k`-th dependency of the node at position
   * `i` is the first unresolvable one; the known names come from the index.
   */
  method MissingError(nodes: seq<Node>, index: map<Name, nat>, i: nat, k: nat) returns (e: CreationError)
    requires IndexesNames(nodes, index) && i < |nodes| && ResolvedBefore(nodes, i)
    requires k < |nodes[i].dependencies| && nodes[i].dependencies[k] !in NamesOf(nodes)
    requires forall k' :: 0 <= k' < k ==> nodes[i].dependencies[k'] in NamesOf(nodes)
    ensures e.MissingDependency? && IsFirstMissing(nodes, e.dependency, e.dependent)
    ensures e.dependency == nodes[i].dependencies[k] && e.dependent == nodes[i].name
    ensures Distinct(e.known) && forall n :: n in e.known <==> n in NamesOf(nodes)
  {
    var known := Elements(index.Keys);
    assert IsFirstMissing(nodes, nodes[i].dependencies[k], nodes[i].name);
    forall n | n in NamesOf(nodes)
      ensures n in index
    {
      var j :| 0 <= j < |nodes| && NamesOf(nodes)[j] == n;
    }
    e := MissingDependency(nodes[i].dependencies[k], nodes[i].name, known);
  }

  /**
   * The third pass: for every node, in order, insert its edges, or fail on
   * the first dependency name the index does not hold. The error lists the
   * index's names in no particular order.
   */
  method InsertEdges(nodes: seq<Node>, index: map<Name, nat>) returns (r: Result<seq<Edge>, CreationError>)
    requires DistinctNames(nodes) && IndexesNames(nodes, index)
    ensures r.Ok? <==> DependenciesResolve(nodes)
    ensures r.Ok? ==> forall e :: e in r.value ==> DeclaredEdge(nodes, e.source, e.target)
    ensures r.Ok? ==> forall u: nat, v: nat :: DeclaredEdge(nodes, u, v) ==> Edge(u, v) in r.value
    ensures r.Ok? ==> r.value == DeclaredEdgeList(nodes)
    ensures r.Err? ==> r.error.MissingDependency? && IsFirstMissing(nodes, r.error.dependency, r.error.dependent)
    ensures r.Err? ==> Distinct(r.error.known) && forall n :: n in r.error.known <==> n in NamesOf(nodes)
  {
    var edges: seq<Edge> := [];
    for i := 0 to |nodes|
      invariant ResolvedBefore(nodes, i)
      invariant edges == EdgesBefore(nodes, i)
    {
      var step := InsertNodeEdges(nodes, index, i, edges);
      if step.Err? {
        var e := MissingError(nodes, index, i, step.error);
        return Err(e);
      }
      assert ResolvedBefore(nodes, i + 1);
      edges := step.value;
    }
    EdgesBeforeExact(nodes, |nodes|);
    return Ok(edges);
  }

  /**
   * Stands in for petgraph's `toposort`, which fails exactly when the graph
   * has a directed cycle and then reports a vertex on one; here the vertex
   * reported is the first in insertion order that lies on a cycle.
   */
  method BlockingVertex(g: DependencyGraph) returns (b: Option<nat>)
    requires Valid(g)
    ensures b.None? <==> !HasCycle(g.vertices)
    ensures b.Some? ==> b.value < |g.vertices| && OnCycle(g.vertices, b.value)
  {
    for v := 0 to |g.vertices|
      invariant forall u :: 0 <= u < v ==> !OnCycle(g.vertices, u)
    {
      ValidNeighboursExact(g, Outgoing);
      var reached := Walk(g, v, Outgoing);
      if v in reached {
        assert OnCycle(g.vertices, v);
        return Some(v);
      }
    }
    return None;
  }

  /** The first outgoing neighbour of `u`, the one the cycle trace follows. */
  function FirstOutgoing(g: DependencyGraph, u: nat): (r: Option<nat>)
    ensures r.Some? ==> Edge(u, r.value) in g.edges
    ensures r.None? ==> forall w: nat :: Edge(u, w) !in g.edges
  {
    var next := Neighbours(g.edges, u, Outgoing);
    if next == [] then
      assert forall w: nat :: Oriented(Outgoing, u, w) == Edge(u, w);
      None
    else
      assert Oriented(Outgoing, u, next[0]) in g.edges;
      Some(next[0])
  }

  /**
   * What the cycle trace from `start` can return: distinct vertices, each
   * followed by its first outgoing neighbour, that either close up (the last
   * vertex's first outgoing neighbour is the first vertex) or run from
   * `start` to a vertex with no outgoing edge.
   */
  ghost predicate IsTrace(g: DependencyGraph, start: nat, path: seq<nat>) {
    && start < |g.vertices|
    && |path| >= 1 && Distinct(path)
    && (forall k :: 0 <= k < |path| ==> path[k] < |g.vertices|)
    && FollowsFirst(g, path)
    && (|| FirstOutgoing(g, path[|path| - 1]) == Some(path[0])
        || (FirstOutgoing(g, path[|path| - 1]).None? && path[0] == start))
  }

  /** Every vertex of `path` is `start` or reachable from it. */
  ghost predicate FromStart(vs: seq<Node>, start: nat, path: seq<nat>) {
    forall k :: 0 <= k < |path| ==> path[k] == start || Reaches(vs, Outgoing, start, path[k])
  }

  /** Each vertex of `path` but the last is followed by its first outgoing neighbour. */
  predicate FollowsFirst(g: DependencyGraph, path: seq<nat>) {
    forall k :: 0 <= k < |path| - 1 ==> FirstOutgoing(g, path[k]) == Some(path[k + 1])
  }

  /** The trimming step of the cycle trace: drop the record up to the repeated vertex `next`. */
  method TrimTo(path: seq<nat>, next: nat) returns (r: seq<nat>)
    requires next in path
    ensures |r| >= 1 && r[0] == next
    ensures exists k :: 0 <= k < |path| && r == path[k..]
  {
    r := path;
    ghost var k := 0;
    while r[0] != next
      invariant k < |path| && r == path[k..] && next in r
      decreases |r|
    {
      r := r[1..];
      k := k + 1;
    }
  }

  /** A tail of a trace record keeps everything but its start: distinct vertices along first edges, reachable from `start`. */
  lemma TailOfTrace(g: DependencyGraph, start: nat, full: seq<nat>, k: nat)
    requires TracePrefix(g, start, full) && k < |full|
    ensures Distinct(full[k..])
    ensures forall j :: 0 <= j < |full[k..]| ==> full[k..][j] < |g.vertices|
    ensures FollowsFirst(g, full[k..]) && FromStart(g.vertices, start, full[k..])
  {
    var r := full[k..];
    assert forall j :: 0 <= j < |r| ==> r[j] == full[k + j];
  }

  /** A record of the trace so far: distinct vertices from `start`, each followed by its first outgoing neighbour. */
  ghost predicate TracePrefix(g: DependencyGraph, start: nat, path: seq<nat>) {
    && |path| >= 1 && path[0] == start && Distinct(path)
    && (forall k :: 0 <= k < |path| ==> path[k] < |g.vertices|)
    && FollowsFirst(g, path) && FromStart(g.vertices, start, path)
  }

  /**
   * `path` is a tail of the first-edge walk recorded from `start`: the trace
   * is trimmed to begin at the vertex where it closes, never rotated.
   */
  ghost predicate TraceSuffix(g: DependencyGraph, start: nat, path: seq<nat>) {
    exists full: seq<nat>, k: nat :: TracePrefix(g, start, full) && k < |full| && full[k..] == path
  }

  /** Recording a new first outgoing neighbour keeps the record a trace prefix. */
  lemma ExtendTrace(g: DependencyGraph, start: nat, path: seq<nat>, next: nat)
    requires Valid(g) && TracePrefix(g, start, path)
    requires FirstOutgoing(g, path[|path| - 1]) == Some(next) && next !in path
    ensures next < |g.vertices|
    ensures TracePrefix(g, start, path + [next])
  {
    var vs := g.vertices;
    var current := path[|path| - 1];
    assert Edge(current, next) in g.edges;
    assert Step(vs, Outgoing, current, next);
    ReachesAppend(vs, Outgoing, start, current, next);
    var p := path + [next];
    assert forall k :: 0 <= k < |path| ==> p[k] == path[k];
  }

  /**
   * The cycle trace: from `start`, follow the first outgoing neighbour,
   * recording each new vertex, until a vertex repeats or has no outgoing
   * edge. On a repeat the record is trimmed to begin at the repeated vertex,
   * and is then a cycle. Otherwise it is the whole walk from `start`, ending at
   * a vertex nothing depends on.
   */
  method TraceCycle(g: DependencyGraph, start: nat) returns (path: seq<nat>)
    requires Valid(g) && start < |g.vertices|
    ensures IsTrace(g, start, path)
    ensures FromStart(g.vertices, start, path)
    ensures TraceSuffix(g, start, path)
  {
    path := [start];
    var current := start;
    var visited := {start};
    while FirstOutgoing(g, current).Some?
      invariant TracePrefix(g, start, path) && path[|path| - 1] == current
      invariant forall v :: v in visited <==> v in path
      invariant visited <= Positions(|g.vertices|)
      decreases Positions(|g.vertices|) - visited
    {
      var next := FirstOutgoing(g, current).value;
      if next in visited {
        ghost var full := path;
        path := TrimTo(path, next);
        ghost var k :| 0 <= k < |full| && path == full[k..];
        TailOfTrace(g, start, full, k);
        assert TracePrefix(g, start, full) && full[k..] == path;
        return;
      }
      ExtendTrace(g, start, path, next);
      visited := visited + {next};
      path := path + [next];
      current := next;
    }
    assert path[0..] == path;
  }

  /** A trace that closes on itself is a real cycle: every vertex on it lies on a cycle. */
  lemma ClosedTraceIsCycle(g: DependencyGraph, start: nat, path: seq<nat>, k: nat)
    requires Valid(g) && IsTrace(g, start, path) && k < |path|
    requires FirstOutgoing(g, path[|path| - 1]) == Some(path[0])
    ensures OnCycle(g.vertices, path[k])
  {
    assert IsWalk(g.vertices, Outgoing, path) by {
      forall i | 0 <= i < |path| - 1
        ensures Step(g.vertices, Outgoing, path[i], path[i + 1])
      {
        assert Edge(path[i], path[i + 1]) in g.edges;
      }
    }
    ClosedWalkIsCycle(g.vertices, path, k);
  }

  /** The names along a trace. */
  function ChainNames(vs: seq<Node>, path: seq<nat>): (r: seq<Name>)
    requires forall k :: 0 <= k < |path| ==> path[k] < |vs|
    ensures |r| == |path|
    ensures forall k :: 0 <= k < |path| ==> r[k] == vs[path[k]].name
  {
    seq(|path|, k requires 0 <= k < |path| => vs[path[k]].name)
  }

  /**
   * The first three passes of `DependencyGraph::new`: the duplicate check,
   * the vertices with their index, and the edges.
   */
  method Assemble(nodes: seq<Node>) returns (r: Result<DependencyGraph, CreationError>)
    ensures (r.Err? && r.error.DuplicateNodeName?) <==> !DistinctNames(nodes)
    ensures r.Err? && r.error.DuplicateNodeName? ==> IsFirstRepeat(nodes, r.error.name)
    ensures (r.Err? && r.error.MissingDependency?) <==> DistinctNames(nodes) && !DependenciesResolve(nodes)
    ensures r.Err? && r.error.MissingDependency? ==>
              && IsFirstMissing(nodes, r.error.dependency, r.error.dependent)
              && Distinct(r.error.known)
              && forall n :: n in r.error.known <==> n in NamesOf(nodes)
    ensures r.Err? ==> !r.error.CircularDependency?
    ensures r.Ok? ==> AsBuilt(r.value) && r.value.vertices == nodes
  {
    var dup := FirstDuplicate(nodes);
    if dup.Some? {
      return Err(DuplicateNodeName(dup.value));
    }
    var index := BuildIndex(nodes);
    var edges := InsertEdges(nodes, index);
    if edges.Err? {
      return Err(edges.error);
    }
    r := Ok(DependencyGraph(nodes, index, edges.value));
  }

  /**
   * `chain` names, in order, the vertices of the cycle trace from `start`:
   * a tail of the first-edge walk from `start` that either closes on itself
   * or ends at a vertex with no outgoing edge.
   */
  ghost predicate ReportsTrace(g: DependencyGraph, start: nat, chain: seq<Name>) {
    exists path :: && IsTrace(g, start, path) && TraceSuffix(g, start, path)
                   && chain == ChainNames(g.vertices, path)
  }

  /** The fourth pass's error: the trace from the blocking vertex, as names, with its first name repeated. */
  method CycleError(g: DependencyGraph, blocker: nat) returns (e: CreationError)
    requires Valid(g) && blocker < |g.vertices|
    ensures e.CircularDependency?
    ensures |e.chain| >= 1 && e.first == e.chain[0]
    ensures forall k :: 0 <= k < |e.chain| ==> e.chain[k] in NamesOf(g.vertices)
    ensures DependencyChain(g.vertices, e.chain)
    ensures ReportsTrace(g, blocker, e.chain)
  {
    var path := TraceCycle(g, blocker);
    var chain := ChainNames(g.vertices, path);
    assert IsTrace(g, blocker, path) && TraceSuffix(g, blocker, path);
    assert DependencyChain(g.vertices, chain) by {
      forall k | 0 <= k < |chain| - 1
        ensures NamedEdge(g.vertices, chain[k], chain[k + 1])
      {
        var u, v := path[k], path[k + 1];
        assert Edge(u, v) in g.edges;
        assert DeclaredEdge(g.vertices, u, v) && g.vertices[u].name == chain[k] && g.vertices[v].name == chain[k + 1];
      }
    }
    e := CircularDependency(chain, chain[0]);
  }

  /**
   * `DependencyGraph::new`. Success yields a valid graph whose vertices are the
   * input nodes in order; each failure is the first of the four checks to
   * fail, and a cycle is reported only when cycles are not allowed.
   */
  method New(nodes: seq<Node>, allowCyclical: bool) returns (r: Result<DependencyGraph, CreationError>)
    ensures (r.Err? && r.error.DuplicateNodeName?) <==> !DistinctNames(nodes)
    ensures r.Err? && r.error.DuplicateNodeName? ==> IsFirstRepeat(nodes, r.error.name)
    ensures (r.Err? && r.error.MissingDependency?) <==> DistinctNames(nodes) && !DependenciesResolve(nodes)
    ensures r.Err? && r.error.MissingDependency? ==>
              && IsFirstMissing(nodes, r.error.dependency, r.error.dependent)
              && Distinct(r.error.known)
              && forall n :: n in r.error.known <==> n in NamesOf(nodes)
    ensures (r.Err? && r.error.CircularDependency?) <==>
              DistinctNames(nodes) && DependenciesResolve(nodes) && !allowCyclical && HasCycle(nodes)
    ensures r.Err? && r.error.CircularDependency? ==>
              && |r.error.chain| >= 1 && r.error.first == r.error.chain[0]
              && (forall k :: 0 <= k < |r.error.chain| ==> r.error.chain[k] in NamesOf(nodes))
              && DependencyChain(nodes, r.error.chain)
    ensures r.Err? && r.error.CircularDependency? ==>
              exists g, b: nat :: && AsBuilt(g) && g.vertices == nodes && b < |nodes| && OnCycle(nodes, b)
                                  && ReportsTrace(g, b, r.error.chain)
    ensures r.Ok? ==> AsBuilt(r.value) && GetAllNodes(r.value) == nodes
    ensures r.Ok? && !allowCyclical ==> !HasCycle(nodes)
  {
    r := Assemble(nodes);
    if r.Ok? && !allowCyclical {
      var blocker := BlockingVertex(r.value);
      if blocker.Some? {
        ghost var g := r.value;
        var e := CycleError(r.value, blocker.value);
        r := Err(e);
        assert ReportsTrace(g, blocker.value, e.chain);
      }
    }
  }
}
