/** The `query` command of `src/commands.rs`: the affected names resolved back to node records. */
module Commands {
  import opened Wrappers
  import opened Paths
  import opened Nodes
  import opened Reachability
  import opened Graph
  import opened Traversal

  /**
   * The lookup half of `query`: each name resolved through the index, in
   * order, with the names the index does not hold skipped.
   */
  method Lookup(g: DependencyGraph, names: seq<Name>) returns (r: seq<Node>)
    requires Valid(g) && Distinct(names)
    ensures forall x :: x in r ==> x in g.vertices && x.name in names
    ensures forall n :: n in names && n in NamesOf(g.vertices) ==> n in NamesOf(r)
    ensures Distinct(NamesOf(r))
  {
    r := [];
    for i := 0 to |names|
      invariant forall x :: x in r ==> x in g.vertices && x.name in names[..i]
      invariant forall k :: 0 <= k < i && names[k] in NamesOf(g.vertices) ==> names[k] in NamesOf(r)
      invariant Distinct(NamesOf(r))
    {
      match GetNode(g, names[i]) {
        case Some(node) =>
          assert names[i] !in names[..i];
          assert NamesOf(r + [node]) == NamesOf(r) + [node.name];
          r := r + [node];
        case None =>
      }
      assert names[..i + 1] == names[..i] + [names[i]];
    }
    assert names[..|names|] == names;
  }

  /**
   * `query`: the nodes affected by a change to `changedFiles`, each once. A
   * name that the index did not hold would be skipped; none is, since every
   * affected name is a node's name.
   */
  method Query<P>(g: DependencyGraph, glob: Glob<P>, changedFiles: seq<Path>) returns (r: seq<Node>)
    requires Valid(g)
    ensures forall x :: x in r ==> x in g.vertices && Affected(g.vertices, glob, changedFiles, x.name)
    ensures forall v :: 0 <= v < |g.vertices| && Affected(g.vertices, glob, changedFiles, g.vertices[v].name) ==> g.vertices[v] in r
    ensures Distinct(NamesOf(r))
    ensures |changedFiles| == 0 ==> r == []
  {
    var vs := g.vertices;
    var names := GetAffectedNodes(g, glob, changedFiles);
    r := Lookup(g, names);
    forall v | 0 <= v < |vs| && Affected(vs, glob, changedFiles, vs[v].name)
      ensures vs[v] in r
    {
      assert vs[v].name in NamesOf(vs);
      var k :| 0 <= k < |r| && NamesOf(r)[k] == vs[v].name;
      assert r[k] in vs;
    }
    forall x | x in r
      ensures |changedFiles| > 0
    {
      ghost var v: nat, w: nat :| v < |vs| && AffectedVia(vs, glob, changedFiles, v, w) && vs[w].name == x.name;
    }
    if r != [] {
      assert r[0] in r;
    }
  }
}
