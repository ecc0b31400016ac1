/**
 * The unit tests of `src/types/graph.rs`, each restated as a method that
 * builds the test's node list with `DependencyGraph::new` and returns what the
 * test inspects; the `ensures` clauses are the test's assertions.
 */
module GraphTests {
  import opened Wrappers
  import opened Nodes
  import opened Reachability
  import opened Graph
  import opened Traversal
  import opened Construction
  import opened Scenarios

  /** The list of `test_graph_creation_success`: `b` depends on `a`, `c` on `b`. */
  function LineNodes(): seq<Node> {
    [TestNode("a", []), TestNode("b", ["a"]), TestNode("c", ["b"])]
  }

  /** The list of `test_duplicate_node_name`: two nodes named `a`. */
  function DuplicateNodes(): seq<Node> {
    [TestNode("a", []), TestNode("a", [])]
  }

  /** The list of `test_missing_dependency`: `a` depends on a node that does not exist. */
  function MissingNodes(): seq<Node> {
    [TestNode("a", ["missing"])]
  }

  /** The list of `test_get_dependents`: `b` and `d` depend on `a`, `c` on `b`. */
  function ForkNodes(): seq<Node> {
    [TestNode("a", []), TestNode("b", ["a"]), TestNode("c", ["b"]), TestNode("d", ["a"])]
  }

  /** The list of `test_complex_dependency_chain`: `e` depends on `a` and `d`, `d` on `b` and `c`. */
  function ComplexNodes(): seq<Node> {
    [TestNode("a", []), TestNode("b", ["a"]), TestNode("c", ["b"]), TestNode("d", ["b", "c"]), TestNode("e", ["a", "d"])]
  }

  /** The list of `test_get_all_nodes`: `b` depends on `a`. */
  function PairNodes(): seq<Node> {
    [TestNode("a", []), TestNode("b", ["a"])]
  }

  /**
   * `r` holds exactly the vertices whose names are in `names`, so its names
   * are `names`.
   */
  lemma NamesOfMembers(vs: seq<Node>, r: seq<Node>, names: set<Name>)
    requires forall x :: x in r ==> x in vs
    requires forall b :: 0 <= b < |vs| ==> (vs[b] in r <==> vs[b].name in names)
    requires forall n :: n in names ==> n in NamesOf(vs)
    ensures NameSet(r) == names
  {
    forall n | n in NameSet(r)
      ensures n in names
    {
      var x :| x in r && x.name == n;
      var b :| 0 <= b < |vs| && vs[b] == x;
    }
    forall n | n in names
      ensures n in NameSet(r)
    {
      var b :| 0 <= b < |vs| && NamesOf(vs)[b] == n;
    }
  }

  /** A build of nodes that are distinct and list their dependencies first succeeds with those nodes. */
  method BuildListedFirst(nodes: seq<Node>, allowCyclical: bool) returns (g: DependencyGraph)
    requires DistinctNames(nodes) && DependenciesListedFirst(nodes)
    ensures Valid(g) && g.vertices == nodes
  {
    ListedFirstIsAcyclic(nodes);
    var r := New(nodes, allowCyclical);
    g := r.value;
  }

  /** The names `get_dependencies` returns, when the nodes that `a` depends on are exactly those named in `names`. */
  method DependencyNames(g: DependencyGraph, a: nat, names: set<Name>) returns (found: set<Name>)
    requires Valid(g) && a < |g.vertices|
    requires forall b :: 0 <= b < |g.vertices| ==> (Reaches(g.vertices, Outgoing, b, a) <==> g.vertices[b].name in names)
    requires forall n :: n in names ==> n in NamesOf(g.vertices)
    ensures found == names
  {
    var r := GetDependencies(g, g.vertices[a].name);
    NamesOfMembers(g.vertices, r, names);
    found := NameSet(r);
  }

  /** The names `get_dependents` returns, when the nodes that depend on `a` are exactly those named in `names`. */
  method DependentNames(g: DependencyGraph, a: nat, names: set<Name>) returns (found: set<Name>)
    requires Valid(g) && a < |g.vertices|
    requires forall b :: 0 <= b < |g.vertices| ==> (Reaches(g.vertices, Outgoing, a, b) <==> g.vertices[b].name in names)
    requires forall n :: n in names ==> n in NamesOf(g.vertices)
    ensures found == names
  {
    var r := GetDependents(g, g.vertices[a].name);
    NamesOfMembers(g.vertices, r, names);
    found := NameSet(r);
  }

  lemma LineNodesListedFirst()
    ensures DistinctNames(LineNodes()) && DependenciesListedFirst(LineNodes())
    ensures NamesOf(LineNodes()) == ["a", "b", "c"]
  {
    var vs := LineNodes();
    assert NamesOf(vs[..1]) == ["a"] && NamesOf(vs[..2]) == ["a", "b"];
  }

  /** `test_graph_creation_success`: `a`, `b` and `c` are found by name, `d` is not. */
  method CreationSucceeds() returns (r: Result<DependencyGraph, CreationError>)
    ensures r.Ok? && Valid(r.value)
    ensures GetNode(r.value, "a").Some? && GetNode(r.value, "b").Some? && GetNode(r.value, "c").Some?
    ensures GetNode(r.value, "d") == None
  {
    LineNodesListedFirst();
    ListedFirstIsAcyclic(LineNodes());
    r := New(LineNodes(), false);
  }

  /** `test_duplicate_node_name`: the build fails naming `a`. */
  method DuplicateNameRejected() returns (r: Result<DependencyGraph, CreationError>)
    ensures r == Err(DuplicateNodeName("a"))
  {
    var vs := DuplicateNodes();
    assert vs[0].name == vs[1].name;
    r := New(vs, false);
    assert IsFirstRepeat(vs, r.error.name);
  }

  /** `test_missing_dependency`: the build fails naming `missing` as the dependency of `a`, and `a` as the only known name. */
  method MissingDependencyReported() returns (r: Result<DependencyGraph, CreationError>)
    ensures r.Err? && r.error.MissingDependency?
    ensures r.error.dependency == "missing" && r.error.dependent == "a"
    ensures forall n :: n in r.error.known <==> n == "a"
  {
    var vs := MissingNodes();
    assert NamesOf(vs) == ["a"];
    assert vs[0].dependencies[0] !in NamesOf(vs);
    r := New(vs, false);
  }

  /** `test_circular_dependency`: with cycles disallowed, the ring is rejected as circular. */
  method CircularRejected() returns (r: Result<DependencyGraph, CreationError>)
    ensures r.Err? && r.error.CircularDependency?
  {
    CircularNodesHaveCycle();
    r := New(CircularNodes(), false);
  }

  /** `test_cyclical_dependency_allowed`: with cycles allowed, the ring builds and `a` is found. */
  method CyclesAllowed() returns (r: Result<DependencyGraph, CreationError>)
    ensures r.Ok? && Valid(r.value)
    ensures GetNode(r.value, "a").Some?
  {
    CircularNodesHaveCycle();
    r := New(CircularNodes(), true);
    assert NamesOf(r.value.vertices)[0] == "a";
  }

  lemma ChainNodesListedFirst()
    ensures DistinctNames(ChainNodes()) && DependenciesListedFirst(ChainNodes())
    ensures NamesOf(ChainNodes()) == ["a", "b", "c", "d"]
  {
    var vs := ChainNodes();
    assert NamesOf(vs[..1]) == ["a"] && NamesOf(vs[..2]) == ["a", "b"] && NamesOf(vs[..3]) == ["a", "b", "c"];
  }

  lemma ChainNodesReaches()
    ensures forall b :: 0 <= b < 4 ==> (Reaches(ChainNodes(), Outgoing, b, 2) <==> ChainNodes()[b].name in {"a", "b"})
    ensures forall b :: 0 <= b < 4 ==> (Reaches(ChainNodes(), Outgoing, b, 0) <==> ChainNodes()[b].name in {})
  {
    var vs := ChainNodes();
    ChainDependencies();
    forall b | 0 <= b < 4
      ensures Reaches(vs, Outgoing, b, 2) <==> vs[b].name in {"a", "b"}
      ensures !Reaches(vs, Outgoing, b, 0)
    {
      DependentIffDependency(vs, b, 2);
      DependentIffDependency(vs, b, 0);
      ReachesFirstStep(vs, Incoming, 0, b);
    }
  }

  /** `test_get_dependencies`: `c` depends on exactly `a` and `b`, and `a` on nothing. */
  method DependenciesOfChain() returns (cDeps: set<Name>, aDeps: set<Name>)
    ensures cDeps == {"a", "b"}
    ensures aDeps == {}
  {
    ChainNodesListedFirst();
    ChainNodesReaches();
    var g := BuildListedFirst(ChainNodes(), false);
    cDeps := DependencyNames(g, 2, {"a", "b"});
    aDeps := DependencyNames(g, 0, {});
  }

  lemma ForkNodesListedFirst()
    ensures DistinctNames(ForkNodes()) && DependenciesListedFirst(ForkNodes())
    ensures NamesOf(ForkNodes()) == ["a", "b", "c", "d"]
  {
    var vs := ForkNodes();
    assert NamesOf(vs[..1]) == ["a"] && NamesOf(vs[..2]) == ["a", "b"] && NamesOf(vs[..3]) == ["a", "b", "c"];
  }

  lemma ForkNodesNoCycleAtA()
    ensures !OnCycle(ForkNodes(), 0)
  {
    ForkNodesListedFirst();
    ListedFirstIsAcyclic(ForkNodes());
  }

  lemma ForkNodesReachPositions()
    ensures forall b :: 0 <= b < 4 ==> (Reaches(ForkNodes(), Outgoing, 0, b) <==> 0 < b)
  {
    var vs := ForkNodes();
    ForkNodesNoCycleAtA();
    assert IsWalk(vs, Outgoing, [0, 1]);
    assert IsWalk(vs, Outgoing, [0, 1, 2]);
    assert IsWalk(vs, Outgoing, [0, 3]);
  }

  lemma ForkNodesReaches()
    ensures forall b :: 0 <= b < 4 ==> (Reaches(ForkNodes(), Outgoing, 0, b) <==> ForkNodes()[b].name in {"b", "c", "d"})
    ensures forall b :: 0 <= b < 4 ==> (Reaches(ForkNodes(), Outgoing, 2, b) <==> ForkNodes()[b].name in {})
  {
    var vs := ForkNodes();
    ForkNodesReachPositions();
    forall b | 0 <= b < 4
      ensures !Reaches(vs, Outgoing, 2, b)
    {
      ReachesFirstStep(vs, Outgoing, 2, b);
    }
  }

  /** `test_get_dependents`: `b`, `c` and `d` depend on `a`, and nothing depends on `c`. */
  method DependentsOfFork() returns (aDependents: set<Name>, cDependents: set<Name>)
    ensures aDependents == {"b", "c", "d"}
    ensures cDependents == {}
  {
    ForkNodesListedFirst();
    ForkNodesReaches();
    var g := BuildListedFirst(ForkNodes(), false);
    aDependents := DependentNames(g, 0, {"b", "c", "d"});
    cDependents := DependentNames(g, 2, {});
  }

  lemma ComplexNodesListedFirst()
    ensures DistinctNames(ComplexNodes()) && DependenciesListedFirst(ComplexNodes())
    ensures NamesOf(ComplexNodes()) == ["a", "b", "c", "d", "e"]
  {
    var vs := ComplexNodes();
    assert NamesOf(vs[..1]) == ["a"] && NamesOf(vs[..2]) == ["a", "b"] && NamesOf(vs[..3]) == ["a", "b", "c"];
    assert NamesOf(vs[..4]) == ["a", "b", "c", "d"];
  }

  lemma ComplexNodesNoCycleAtE()
    ensures !OnCycle(ComplexNodes(), 4)
  {
    ComplexNodesListedFirst();
    ListedFirstIsAcyclic(ComplexNodes());
  }

  lemma ComplexNodesWalksToE()
    ensures forall b :: 0 <= b < 4 ==> Reaches(ComplexNodes(), Outgoing, b, 4)
  {
    var vs := ComplexNodes();
    assert IsWalk(vs, Outgoing, [0, 4]);
    assert IsWalk(vs, Outgoing, [3, 4]);
    assert IsWalk(vs, Outgoing, [1, 3, 4]);
    assert IsWalk(vs, Outgoing, [2, 3, 4]);
  }

  lemma ComplexNodesReachPositions()
    ensures forall b :: 0 <= b < 5 ==> (Reaches(ComplexNodes(), Outgoing, b, 4) <==> b < 4)
  {
    ComplexNodesNoCycleAtE();
    ComplexNodesWalksToE();
  }

  lemma ComplexNodesReaches()
    ensures forall b :: 0 <= b < 5 ==> (Reaches(ComplexNodes(), Outgoing, b, 4) <==> ComplexNodes()[b].name in {"a", "b", "c", "d"})
  {
    ComplexNodesReachPositions();
  }

  /** `test_complex_dependency_chain`: `e` depends, directly or not, on exactly `a`, `b`, `c` and `d`. */
  method ComplexChain() returns (eDeps: set<Name>)
    ensures eDeps == {"a", "b", "c", "d"}
  {
    ComplexNodesListedFirst();
    ComplexNodesReaches();
    var g := BuildListedFirst(ComplexNodes(), false);
    eDeps := DependencyNames(g, 4, {"a", "b", "c", "d"});
  }

  /** `test_get_all_nodes`: a graph of two nodes lists two nodes. */
  method AllNodesCounted() returns (count: nat)
    ensures count == 2
  {
    var vs := PairNodes();
    assert NamesOf(vs[..1]) == ["a"];
    var g := BuildListedFirst(vs, false);
    count := |GetAllNodes(g)|;
  }
}
