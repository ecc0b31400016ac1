/**
 * The queries over a built graph (`src/types/graph.rs`): the two
 * reachability walks and the affected-node computation.
 */
module Traversal {
  import opened Wrappers
  import opened Paths
  import opened Nodes
  import opened Reachability
  import opened Graph

  ghost predicate Distinct<T>(s: seq<T>) {
    forall i, j :: 0 <= i < j < |s| ==> s[i] != s[j]
  }

  function Positions(n: nat): (r: set<nat>)
    ensures forall v: nat :: v in r <==> v < n
  {
    if n == 0 then {} else Positions(n - 1) + {n - 1}
  }

  /**
   * The bookkeeping of a walk from `start`: `found` lists the visited
   * vertices once each, in visiting order; each was reached from `start`;
   * every stacked vertex is `start` or visited.
   */
  ghost predicate WalkSound(vs: seq<Node>, dir: Direction, start: nat, visited: set<nat>, found: seq<nat>, stack: seq<nat>) {
    && (forall v :: v in visited <==> v in found)
    && Distinct(found)
    && visited <= Positions(|vs|)
    && (forall v :: v in found ==> Reaches(vs, dir, start, v))
    && (forall v :: v in stack ==> v == start || v in visited)
  }

  /**
   * Every step out of `start` or out of a visited vertex other than `u` ends
   * in a visited vertex, unless the vertex it leaves is still stacked.
   */
  ghost predicate ExpandedExcept(vs: seq<Node>, dir: Direction, start: nat, visited: set<nat>, stack: seq<nat>, u: Option<nat>) {
    forall x, w :: (x == start || x in visited) && Step(vs, dir, x, w) ==> Some(x) == u || x in stack || w in visited
  }

  /**
   * The inner loop of the walk: visit every neighbour of the just popped
   * vertex `u` that is not yet visited, recording and stacking it.
   */
  method ExpandVertex(vs: seq<Node>, dir: Direction, start: nat, u: nat, next: seq<nat>,
                      visited: set<nat>, found: seq<nat>, stack: seq<nat>)
    returns (visited': set<nat>, found': seq<nat>, stack': seq<nat>)
    requires forall w :: w in next <==> Step(vs, dir, u, w)
    requires u == start || u in visited
    requires WalkSound(vs, dir, start, visited, found, stack)
    requires ExpandedExcept(vs, dir, start, visited, stack, Some(u))
    ensures WalkSound(vs, dir, start, visited', found', stack')
    ensures ExpandedExcept(vs, dir, start, visited', stack', None)
    ensures visited <= visited'
    ensures visited' == visited ==> stack' == stack
  {
    visited', found', stack' := visited, found, stack;
    var i := 0;
    while i < |next|
      invariant 0 <= i <= |next|
      invariant WalkSound(vs, dir, start, visited', found', stack')
      invariant ExpandedExcept(vs, dir, start, visited', stack', Some(u))
      invariant visited <= visited'
      invariant visited' == visited ==> stack' == stack
      invariant forall k :: 0 <= k < i ==> next[k] in visited'
    {
      var w := next[i];
      if w !in visited' {
        assert Step(vs, dir, u, w);
        ReachesAppend(vs, dir, start, u, w);
        visited' := visited' + {w};
        found' := found' + [w];
        stack' := stack' + [w];
      }
      i := i + 1;
    }
  }

  /**
   * The body of `get_dependents` and `get_dependencies`: a depth-first walk
   * from `start` with an explicit stack and a visited set, following edges in
   * direction `dir`. A vertex is recorded when first visited; `start` is not
   * marked visited up front, so it is recorded only when a walk returns to it.
   */
  method Walk(g: DependencyGraph, start: nat, dir: Direction) returns (r: seq<nat>)
    requires NeighboursExact(g, dir) && start < |g.vertices|
    ensures Distinct(r)
    ensures forall v :: v in r <==> Reaches(g.vertices, dir, start, v)
    ensures forall k :: 0 <= k < |r| ==> r[k] < |g.vertices|
  {
    var vs := g.vertices;
    var visited: set<nat> := {};
    var stack := [start];
    r := [];
    while stack != []
      invariant WalkSound(vs, dir, start, visited, r, stack)
      invariant ExpandedExcept(vs, dir, start, visited, stack, None)
      decreases Positions(|vs|) - visited, |stack|
    {
      var u := stack[|stack| - 1];
      stack := stack[..|stack| - 1];
      assert u in stack + [u];
      ghost var visited0, stack0 := visited, stack;
      var next := Neighbours(g.edges, u, dir);
      visited, r, stack := ExpandVertex(vs, dir, start, u, next, visited, r, stack);
      assert visited != visited0 ==> Positions(|vs|) - visited < Positions(|vs|) - visited0;
    }
    forall v | Reaches(vs, dir, start, v)
      ensures v in visited
    {
      ClosedSetHoldsReachable(vs, dir, start, visited, v);
    }
    forall k | 0 <= k < |r|
      ensures r[k] < |vs|
    {
      assert r[k] in visited;
    }
  }

  /** The nodes at the given vertex positions. */
  function NodesAt(vs: seq<Node>, ids: seq<nat>): (r: seq<Node>)
    requires forall k :: 0 <= k < |ids| ==> ids[k] < |vs|
    ensures |r| == |ids|
    ensures forall k :: 0 <= k < |ids| ==> r[k] == vs[ids[k]]
  {
    seq(|ids|, k requires 0 <= k < |ids| => vs[ids[k]])
  }

  /** The nodes reached from the node called `name` in direction `dir`; nothing for an unknown name. */
  method Related(g: DependencyGraph, name: Name, dir: Direction) returns (r: seq<Node>)
    requires Valid(g)
    ensures name !in NamesOf(g.vertices) ==> r == []
    ensures forall a, b :: 0 <= a < |g.vertices| && 0 <= b < |g.vertices| && g.vertices[a].name == name ==>
              (g.vertices[b] in r <==> Reaches(g.vertices, dir, a, b))
    ensures forall x :: x in r ==> x in g.vertices
    ensures forall i, j :: 0 <= i < j < |r| ==> r[i].name != r[j].name
  {
    if name in g.index {
      ValidNeighboursExact(g, dir);
      var ids := Walk(g, g.index[name], dir);
      r := NodesAt(g.vertices, ids);
      forall a, b | 0 <= a < |g.vertices| && 0 <= b < |g.vertices| && g.vertices[a].name == name
        ensures g.vertices[b] in r <==> Reaches(g.vertices, dir, a, b)
      {
        assert a == g.index[name];
        if g.vertices[b] in r {
          var k :| 0 <= k < |r| && r[k] == g.vertices[b];
          assert g.vertices[ids[k]].name == g.vertices[b].name;
          assert ids[k] == b;
        }
        if Reaches(g.vertices, dir, a, b) {
          assert b in ids;
        }
      }
      forall i, j | 0 <= i < j < |r|
        ensures r[i].name != r[j].name
      {
        assert ids[i] != ids[j];
      }
    } else {
      r := [];
    }
  }

  /**
   * `get_dependents`: every node that depends, directly or through others, on
   * the node called `name`, each once. The node itself is among them only
   * when it reaches itself, that is, when it lies on a cycle.
   */
  method GetDependents(g: DependencyGraph, name: Name) returns (r: seq<Node>)
    requires Valid(g)
    ensures name !in NamesOf(g.vertices) ==> r == []
    ensures forall a, b :: 0 <= a < |g.vertices| && 0 <= b < |g.vertices| && g.vertices[a].name == name ==>
              (g.vertices[b] in r <==> Reaches(g.vertices, Outgoing, a, b))
    ensures forall x :: x in r ==> x in g.vertices
    ensures forall i, j :: 0 <= i < j < |r| ==> r[i].name != r[j].name
  {
    r := Related(g, name, Outgoing);
  }

  /**
   * `get_dependencies`: every node that the node called `name` depends on,
   * directly or through others, each once: the same walk along incoming edges.
   */
  method GetDependencies(g: DependencyGraph, name: Name) returns (r: seq<Node>)
    requires Valid(g)
    ensures name !in NamesOf(g.vertices) ==> r == []
    ensures forall a, b :: 0 <= a < |g.vertices| && 0 <= b < |g.vertices| && g.vertices[a].name == name ==>
              (g.vertices[b] in r <==> Reaches(g.vertices, Outgoing, b, a))
    ensures forall x :: x in r ==> x in g.vertices
    ensures forall i, j :: 0 <= i < j < |r| ==> r[i].name != r[j].name
  {
    r := Related(g, name, Incoming);
    forall a, b | 0 <= a < |g.vertices| && 0 <= b < |g.vertices| && g.vertices[a].name == name
      ensures g.vertices[b] in r <==> Reaches(g.vertices, Outgoing, b, a)
    {
      DependentIffDependency(g.vertices, b, a);
    }
  }

  /** `node` owns one of `files`: it includes at least one of them. */
  predicate Owns<P>(glob: Glob<P>, node: Node, files: seq<Path>) {
    exists k :: 0 <= k < |files| && IncludesPath(glob, node, files[k])
  }

  /** A change to a file owned by vertex `v` affects vertex `w`: `w` is `v` itself or one of its dependents. */
  ghost predicate AffectedVia<P>(vs: seq<Node>, glob: Glob<P>, files: seq<Path>, v: nat, w: nat) {
    v < |vs| && w < |vs| && Owns(glob, vs[v], files) && (w == v || Reaches(vs, Outgoing, v, w))
  }

  /** `name` is the name of a vertex affected through an owner among the first `bound` vertices. */
  ghost predicate AffectedBy<P>(vs: seq<Node>, glob: Glob<P>, files: seq<Path>, bound: nat, name: Name) {
    exists v: nat, w: nat :: v < bound && AffectedVia(vs, glob, files, v, w) && vs[w].name == name
  }

  /** `name` is affected by a change to `files`. */
  ghost predicate Affected<P>(vs: seq<Node>, glob: Glob<P>, files: seq<Path>, name: Name) {
    AffectedBy(vs, glob, files, |vs|, name)
  }

  /** The check of one node against the changed files, stopping at the first file it includes. */
  method OwnsAny<P>(glob: Glob<P>, node: Node, files: seq<Path>) returns (b: bool)
    ensures b <==> Owns(glob, node, files)
  {
    b := false;
    var j := 0;
    while j < |files|
      invariant 0 <= j <= |files|
      invariant forall k :: 0 <= k < j ==> !IncludesPath(glob, node, files[k])
    {
      if IncludesPath(glob, node, files[j]) {
        b := true;
        break;
      }
      j := j + 1;
    }
  }

  function NameSet(xs: seq<Node>): (r: set<Name>)
    ensures forall n :: n in r <==> exists x :: x in xs && x.name == n
  {
    set x | x in xs :: x.name
  }

  /** The elements of a set, each once, in an unspecified order (a `HashSet` collected into a `Vec`). */
  method Elements(s: set<Name>) returns (r: seq<Name>)
    ensures Distinct(r)
    ensures forall x :: x in r <==> x in s
  {
    r := [];
    var rest := s;
    while rest != {}
      invariant rest <= s
      invariant forall x :: x in r <==> x in s && x !in rest
      invariant Distinct(r)
      decreases rest
    {
      var x :| x in rest;
      r := r + [x];
      rest := rest - {x};
    }
  }

  /** One iteration of the loop over nodes keeps the affected set exact for the nodes seen so far. */
  lemma AffectedStep<P>(vs: seq<Node>, glob: Glob<P>, files: seq<Path>, i: nat,
                        before: set<Name>, owns: bool, dependents: seq<Node>, after: set<Name>)
    requires i < |vs|
    requires forall n :: n in before <==> AffectedBy(vs, glob, files, i, n)
    requires owns <==> Owns(glob, vs[i], files)
    requires owns ==> forall b :: 0 <= b < |vs| ==> (vs[b] in dependents <==> Reaches(vs, Outgoing, i, b))
    requires owns ==> forall x :: x in dependents ==> x in vs
    requires after == if owns then before + {vs[i].name} + NameSet(dependents) else before
    ensures forall n :: n in after <==> AffectedBy(vs, glob, files, i + 1, n)
  {
    forall n | n in after
      ensures AffectedBy(vs, glob, files, i + 1, n)
    {
      if n in before {
        var v: nat, w: nat :| v < i && AffectedVia(vs, glob, files, v, w) && vs[w].name == n;
        assert v < i + 1;
      } else if n == vs[i].name {
        assert AffectedVia(vs, glob, files, i, i);
      } else {
        var x :| x in dependents && x.name == n;
        var b :| 0 <= b < |vs| && vs[b] == x;
        assert AffectedVia(vs, glob, files, i, b);
      }
    }
    forall n | AffectedBy(vs, glob, files, i + 1, n)
      ensures n in after
    {
      var v: nat, w: nat :| v < i + 1 && AffectedVia(vs, glob, files, v, w) && vs[w].name == n;
      if v < i {
        assert AffectedBy(vs, glob, files, i, n);
      } else if w != v {
        assert vs[w] in dependents;
      }
    }
  }

  /**
   * `get_affected_nodes`: the names of every node that includes one of the
   * changed files, together with the names of all of its dependents, each
   * once.
   */
  method GetAffectedNodes<P>(g: DependencyGraph, glob: Glob<P>, changedFiles: seq<Path>) returns (r: seq<Name>)
    requires Valid(g)
    ensures Distinct(r)
    ensures forall n :: n in r <==> Affected(g.vertices, glob, changedFiles, n)
    ensures (forall v :: 0 <= v < |g.vertices| ==> !Owns(glob, g.vertices[v], changedFiles)) ==> r == []
  {
    var affected: set<Name> := {};
    var nodes := GetAllNodes(g);
    for i := 0 to |nodes|
      invariant forall n :: n in affected <==> AffectedBy(g.vertices, glob, changedFiles, i, n)
    {
      var node := nodes[i];
      var owns := OwnsAny(glob, node, changedFiles);
      var before := affected;
      var dependents := [];
      if owns {
        dependents := GetDependents(g, node.name);
        affected := affected + {node.name} + NameSet(dependents);
      }
      AffectedStep(g.vertices, glob, changedFiles, i, before, owns, dependents, affected);
    }
    r := Elements(affected);
    forall n | n in affected
      ensures exists v :: 0 <= v < |g.vertices| && Owns(glob, g.vertices[v], changedFiles)
    {
      var v: nat, w: nat :| v < |g.vertices| && AffectedVia(g.vertices, glob, changedFiles, v, w) && g.vertices[w].name == n;
    }
    if r != [] {
      assert r[0] in affected;
    }
  }

  /** Adding changed files never removes an affected name. */
  lemma AffectedMonotone<P>(vs: seq<Node>, glob: Glob<P>, files: seq<Path>, more: seq<Path>, name: Name)
    requires forall k :: 0 <= k < |files| ==> files[k] in more
    requires Affected(vs, glob, files, name)
    ensures Affected(vs, glob, more, name)
  {
    var v: nat, w: nat :| v < |vs| && AffectedVia(vs, glob, files, v, w) && vs[w].name == name;
    var k :| 0 <= k < |files| && IncludesPath(glob, vs[v], files[k]);
    var k' :| 0 <= k' < |more| && more[k'] == files[k];
    assert AffectedVia(vs, glob, more, v, w);
  }
}
