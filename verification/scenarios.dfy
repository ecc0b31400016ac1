/**
 * The node lists of two unit tests in `src/types/graph.rs`, with what those
 * tests expect stated over the reachability definitions, and one hand-built
 * graph on which the cycle trace leaves the cycle it started on.
 */
module Scenarios {
  import opened Wrappers
  import opened Paths
  import opened Nodes
  import opened Reachability
  import opened Graph
  import opened Construction

  /** `create_test_node`: rooted at `test/<name>`, including `src/**/*`, excluding `test/**/*`. */
  function TestNode(name: Name, deps: seq<Name>): Node {
    Node(name, Path(false, ["test", name]), [Path(false, ["src", "**", "*"])], [Path(false, ["test", "**", "*"])], deps, None)
  }

  /** `test_circular_dependency`: `a` depends on `b`, `b` on `c`, `c` on `a`. */
  function CircularNodes(): seq<Node> {
    [TestNode("a", ["b"]), TestNode("b", ["c"]), TestNode("c", ["a"])]
  }

  /** `test_get_dependencies`: `b` depends on `a`, `c` on `b`; `d` stands alone. */
  function ChainNodes(): seq<Node> {
    [TestNode("a", []), TestNode("b", ["a"]), TestNode("c", ["b"]), TestNode("d", [])]
  }

  /** The three-node ring has a cycle through `a`, so building it without allowing cycles fails. */
  lemma CircularNodesHaveCycle()
    ensures DistinctNames(CircularNodes()) && DependenciesResolve(CircularNodes())
    ensures OnCycle(CircularNodes(), 0)
    ensures HasCycle(CircularNodes())
  {
    var vs := CircularNodes();
    assert NamesOf(vs) == ["a", "b", "c"];
    var p := [0, 2, 1, 0];
    assert DeclaredEdge(vs, 0, 2) && DeclaredEdge(vs, 2, 1) && DeclaredEdge(vs, 1, 0);
    assert IsWalk(vs, Outgoing, p);
    assert OnCycle(vs, 0);
  }

  /** The dependencies of `c` are exactly `a` and `b`. */
  lemma ChainDependencies()
    ensures forall v :: 0 <= v < 4 ==> (Reaches(ChainNodes(), Incoming, 2, v) <==> v == 0 || v == 1)
  {
    var vs := ChainNodes();
    assert DeclaredEdge(vs, 1, 2) && DeclaredEdge(vs, 0, 1);
    assert IsWalk(vs, Incoming, [2, 1]);
    assert IsWalk(vs, Incoming, [2, 1, 0]);
    forall u: nat, w: nat | (u == 2 || u in {0, 1}) && Step(vs, Incoming, u, w)
      ensures w in {0, 1}
    {
      assert vs[w].name in vs[u].dependencies;
    }
    forall v | 0 <= v < 4 && Reaches(vs, Incoming, 2, v)
      ensures v == 0 || v == 1
    {
      ClosedSetHoldsReachable(vs, Incoming, 2, {0, 1}, v);
    }
  }

  /** `a` and `b` depend on each other; `c` depends on `a`. */
  function OffCycleNodes(): seq<Node> {
    [TestNode("a", ["b"]), TestNode("b", ["a"]), TestNode("c", ["a"])]
  }

  /** The graph the first three passes build from `OffCycleNodes`: edges `b -> a`, `a -> b`, `a -> c`, in that order. */
  function OffCycleGraph(): DependencyGraph {
    DependencyGraph(OffCycleNodes(), map["a" := 0, "b" := 1, "c" := 2], [Edge(1, 0), Edge(0, 1), Edge(0, 2)])
  }

  /** The names and dependency lists of `OffCycleNodes`, position by position. */
  lemma OffCycleShape()
    ensures |OffCycleNodes()| == 3 && NamesOf(OffCycleNodes()) == ["a", "b", "c"]
    ensures OffCycleNodes()[0].dependencies == ["b"]
    ensures OffCycleNodes()[1].dependencies == ["a"]
    ensures OffCycleNodes()[2].dependencies == ["a"]
    ensures OffCycleNodes()[2].name == "c"
  {
    assert NamesOf(OffCycleNodes()) == ["a", "b", "c"];
  }

  /** The edges declared by `OffCycleNodes` are exactly `b -> a`, `a -> b` and `a -> c`. */
  lemma OffCycleEdges()
    ensures forall u: nat, v: nat :: DeclaredEdge(OffCycleNodes(), u, v) <==> Edge(u, v) in OffCycleGraph().edges
  {
    OffCycleShape();
    var vs := OffCycleNodes();
    forall u: nat, v: nat
      ensures DeclaredEdge(vs, u, v) <==> Edge(u, v) in OffCycleGraph().edges
    {
      if u < 3 && v < 3 {
        assert vs[u].name == ["a", "b", "c"][u];
      }
    }
  }

  /** The third pass inserts `b -> a` for `a`, then `a -> b` for `b`, then `a -> c` for `c`. */
  lemma OffCycleEdgeList()
    ensures DependenciesResolve(OffCycleNodes())
    ensures DeclaredEdgeList(OffCycleNodes()) == OffCycleGraph().edges
  {
    OffCycleShape();
    var vs := OffCycleNodes();
    assert DependenciesResolve(vs);
    assert PositionOf(vs, "a") == 0 && PositionOf(vs, "b") == 1;
    assert EdgesBefore(vs, 1) == [Edge(1, 0)];
    assert EdgesBefore(vs, 2) == [Edge(1, 0), Edge(0, 1)];
  }

  /** The hand-written graph is valid. */
  lemma OffCycleGraphValid()
    ensures Valid(OffCycleGraph())
  {
    OffCycleShape();
    OffCycleEdges();
    var g := OffCycleGraph();
    var vs := g.vertices;
    assert DistinctNames(vs) && DependenciesResolve(vs);
    forall i | 0 <= i < |vs|
      ensures vs[i].name in g.index && g.index[vs[i].name] == i
    {
      assert vs[i].name == NamesOf(vs)[i];
    }
    forall n | n in g.index
      ensures g.index[n] < |vs| && vs[g.index[n]].name == n
    {
      assert n == "a" || n == "b" || n == "c";
    }
  }

  /** Newest edge first: `a` leads first to `c`, `b` to `a`, and `c` has no outgoing edge. */
  lemma OffCycleFirstEdges()
    ensures FirstOutgoing(OffCycleGraph(), 0) == Some(2)
    ensures FirstOutgoing(OffCycleGraph(), 1) == Some(0)
    ensures FirstOutgoing(OffCycleGraph(), 2) == None
  {
    var g := OffCycleGraph();
    var e1, e2 := [Edge(1, 0)], [Edge(1, 0), Edge(0, 1)];
    assert e1[..0] == [] && e2[..1] == e1 && g.edges[..2] == e2;
    assert Neighbours(e1, 0, Outgoing) == [] && Neighbours(e1, 1, Outgoing) == [0];
    assert Neighbours(e2, 0, Outgoing) == [1] && Neighbours(e2, 1, Outgoing) == [0];
    assert Neighbours(g.edges, 0, Outgoing) == [2, 1];
    assert Neighbours(g.edges, 1, Outgoing) == [0];
    assert Neighbours(g.edges, 2, Outgoing) == [];
  }

  /** The hand-written graph is the one the first three passes build from `OffCycleNodes`. */
  lemma OffCycleGraphBuilt()
    ensures AsBuilt(OffCycleGraph())
  {
    OffCycleGraphValid();
    OffCycleEdgeList();
  }

  /** The only index of `OffCycleNodes` maps `a`, `b`, `c` to 0, 1, 2. */
  lemma OffCycleIndex(index: map<Name, nat>)
    requires IndexesNames(OffCycleNodes(), index)
    ensures index == OffCycleGraph().index
  {
    OffCycleShape();
    var vs := OffCycleNodes();
    var m := OffCycleGraph().index;
    forall n | n in index
      ensures n in m && index[n] == m[n]
    {
      assert vs[index[n]].name == NamesOf(vs)[index[n]];
    }
    forall n | n in m
      ensures n in index
    {
      assert n == NamesOf(vs)[m[n]];
    }
  }

  /** Any graph built from `OffCycleNodes` is the hand-written one: the index and edge list are determined. */
  lemma OffCycleIsBuilt(g: DependencyGraph)
    requires AsBuilt(g) && g.vertices == OffCycleNodes()
    ensures g == OffCycleGraph()
  {
    OffCycleIndex(g.index);
    OffCycleEdgeList();
  }

  /** Every trace in the built graph ends at `c`: following first edges from `a` or `b` leads there, never back. */
  lemma OffCycleTraceEndsAtC(start: nat, path: seq<nat>)
    requires IsTrace(OffCycleGraph(), start, path)
    ensures path[|path| - 1] == 2
  {
    var g := OffCycleGraph();
    OffCycleFirstEdges();
    var n := |path|;
    assert n >= 2 ==> FirstOutgoing(g, path[0]) == Some(path[1]);
    assert n >= 2 ==> FirstOutgoing(g, path[n - 2]) == Some(path[n - 1]);
  }

  /** `c` depends on `a` but nothing depends on `c`, so `c` lies on no cycle. */
  lemma OffCycleCIsNotOnCycle()
    ensures !OnCycle(OffCycleNodes(), 2)
  {
    var vs := OffCycleNodes();
    OffCycleEdges();
    ReachesFirstStep(vs, Outgoing, 2, 2);
    assert forall w: nat :: !Step(vs, Outgoing, 2, w);
  }

  /** `a` and `b` depend on each other, so `a` lies on a cycle. */
  lemma OffCycleAOnCycle()
    ensures OnCycle(OffCycleNodes(), 0)
  {
    var vs := OffCycleNodes();
    OffCycleEdges();
    assert Step(vs, Outgoing, 0, 1) && Step(vs, Outgoing, 1, 0);
    assert IsWalk(vs, Outgoing, [0, 1, 0]);
  }

  /**
   * The cycle trace need not report a cycle. `a` lies on the cycle
   * `a -> b -> a`, but its newest outgoing edge leads to `c`, which nothing
   * depends on, so the trace from `a` is `a, c` and the error names
   * `a -> c` although `c` lies on no cycle.
   */
  lemma TraceCanLeaveCycle(path: seq<nat>)
    requires IsTrace(OffCycleGraph(), 0, path)
    ensures OnCycle(OffCycleNodes(), 0)
    ensures path == [0, 2]
    ensures !OnCycle(OffCycleNodes(), 2)
  {
    var g := OffCycleGraph();
    OffCycleFirstEdges();
    OffCycleTraceEndsAtC(0, path);
    OffCycleAOnCycle();
    OffCycleCIsNotOnCycle();
    var n := |path|;
    assert n >= 2 ==> FirstOutgoing(g, path[n - 2]) == Some(path[n - 1]);
    assert n == 2;
  }

  /** In the hand-written graph, every chain the cycle error can name ends at `c`. */
  lemma OffCycleReportEndsAtC(b: nat, chain: seq<Name>)
    requires ReportsTrace(OffCycleGraph(), b, chain)
    ensures |chain| >= 1 && chain[|chain| - 1] == "c"
  {
    var vs := OffCycleNodes();
    var path :| IsTrace(OffCycleGraph(), b, path) && TraceSuffix(OffCycleGraph(), b, path) && chain == ChainNames(vs, path);
    OffCycleTraceEndsAtC(b, path);
    OffCycleShape();
  }

  /**
   * Whatever vertex the cycle check reports, the error that building
   * `OffCycleNodes` with cycles disallowed can give names a chain ending at
   * `c`, which lies on no cycle.
   */
  lemma OffCycleErrorEndsAtC(g: DependencyGraph, b: nat, chain: seq<Name>)
    requires AsBuilt(g) && g.vertices == OffCycleNodes() && ReportsTrace(g, b, chain)
    ensures |chain| >= 1 && chain[|chain| - 1] == "c"
    ensures !OnCycle(g.vertices, 2) && g.vertices[2].name == "c"
  {
    OffCycleIsBuilt(g);
    OffCycleReportEndsAtC(b, chain);
    OffCycleShape();
    OffCycleCIsNotOnCycle();
  }
}
