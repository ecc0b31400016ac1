/**
 * The validated dependency graph of `src/types/graph.rs`: the nodes as
 * vertices in input order, a name index, and the edge list in insertion
 * order, each edge running from a dependency to its dependent.
 */
module Graph {
  import opened Wrappers
  import opened Nodes
  import opened Reachability

  /** An edge between vertex positions: `target` depends on `source`. */
  datatype Edge = Edge(source: nat, target: nat)

  datatype DependencyGraph = DependencyGraph(vertices: seq<Node>, index: map<Name, nat>, edges: seq<Edge>)

  /** `DependencyGraphCreationError`; the list of known names and the chain are kept as sequences rather than joined into text. */
  datatype CreationError =
    | DuplicateNodeName(name: Name)
    | MissingDependency(dependency: Name, dependent: Name, known: seq<Name>)
    | CircularDependency(chain: seq<Name>, first: Name)

  /** `index` maps each node's name to its position and holds nothing else. */
  ghost predicate IndexesNames(nodes: seq<Node>, index: map<Name, nat>) {
    && (forall i :: 0 <= i < |nodes| ==> nodes[i].name in index && index[nodes[i].name] == i)
    && (forall n :: n in index ==> index[n] < |nodes| && nodes[index[n]].name == n)
  }

  /**
   * What `DependencyGraph::new` guarantees of the graph it returns: unique
   * names, an index that maps each name to its vertex and nothing else, every
   * dependency resolved, and exactly the declared edges.
   */
  ghost predicate Valid(g: DependencyGraph) {
    var vs := g.vertices;
    && DistinctNames(vs)
    && DependenciesResolve(vs)
    && IndexesNames(vs, g.index)
    && (forall e :: e in g.edges ==> DeclaredEdge(vs, e.source, e.target))
    && (forall u, v :: DeclaredEdge(vs, u, v) ==> Edge(u, v) in g.edges)
  }

  /** The edge that a step from `u` to `w` in direction `dir` travels. */
  function Oriented(dir: Direction, u: nat, w: nat): Edge {
    match dir
    case Outgoing => Edge(u, w)
    case Incoming => Edge(w, u)
  }

  /**
   * `neighbors_directed(u, dir)`: the far ends of the edges at `u` in direction
   * `dir`, newest edge first (petgraph prepends each new edge to the vertex's
   * adjacency list). An end reached by several parallel edges appears once per edge.
   */
  function Neighbours(edges: seq<Edge>, u: nat, dir: Direction): (r: seq<nat>)
    ensures forall w :: w in r <==> Oriented(dir, u, w) in edges
  {
    if |edges| == 0 then []
    else
      var e := edges[|edges| - 1];
      var rest := Neighbours(edges[..|edges| - 1], u, dir);
      assert edges == edges[..|edges| - 1] + [e];
      match dir
      case Outgoing => if e.source == u then [e.target] + rest else rest
      case Incoming => if e.target == u then [e.source] + rest else rest
  }

  /** In a valid graph the neighbours of `u` are exactly its one-step successors in direction `dir`. */
  lemma NeighboursAreSteps(g: DependencyGraph, u: nat, dir: Direction)
    requires Valid(g)
    ensures forall w :: w in Neighbours(g.edges, u, dir) <==> Step(g.vertices, dir, u, w)
  {
    forall w
      ensures w in Neighbours(g.edges, u, dir) <==> Step(g.vertices, dir, u, w)
    {
      match dir
      case Outgoing =>
        if Edge(u, w) in g.edges {
          assert DeclaredEdge(g.vertices, u, w);
        }
      case Incoming =>
        if Edge(w, u) in g.edges {
          assert DeclaredEdge(g.vertices, w, u);
        }
    }
  }

  /** The neighbour lists of `g` in direction `dir` are exactly the one-step successors of the declared graph. */
  ghost predicate NeighboursExact(g: DependencyGraph, dir: Direction) {
    forall u: nat, w :: w in Neighbours(g.edges, u, dir) <==> Step(g.vertices, dir, u, w)
  }

  /** A valid graph's neighbour lists are exact in both directions. */
  lemma ValidNeighboursExact(g: DependencyGraph, dir: Direction)
    requires Valid(g)
    ensures NeighboursExact(g, dir)
  {
    forall u: nat
      ensures forall w :: w in Neighbours(g.edges, u, dir) <==> Step(g.vertices, dir, u, w)
    {
      NeighboursAreSteps(g, u, dir);
    }
  }

  /** `get_node`: the node with the given name, if one was declared. */
  function GetNode(g: DependencyGraph, name: Name): (r: Option<Node>)
    requires Valid(g)
    ensures r.Some? <==> name in NamesOf(g.vertices)
    ensures r.Some? ==> r.value in g.vertices && r.value.name == name
  {
    if name in g.index then Some(g.vertices[g.index[name]]) else None
  }

  /**
   * `get_all_nodes`: every vertex, in insertion order. In a valid graph it
   * agrees with `get_node`: looking up the name of any listed node finds that
   * node, every node found by name is listed, and no name is listed twice.
   */
  function GetAllNodes(g: DependencyGraph): (r: seq<Node>)
    ensures |r| == |g.vertices|
    ensures forall i :: 0 <= i < |r| ==> r[i] == g.vertices[i]
    ensures Valid(g) ==> forall i :: 0 <= i < |r| ==> GetNode(g, r[i].name) == Some(r[i])
    ensures Valid(g) ==> forall n :: GetNode(g, n).Some? ==> GetNode(g, n).value in r
    ensures Valid(g) ==> forall i, j :: 0 <= i < j < |r| ==> r[i].name != r[j].name
  {
    g.vertices
  }
}
