/**
 * What the dependency graph means, stated over the declared node list alone:
 * the edge `u -> v` exists when node `v` names node `u` among its
 * dependencies, and reachability is the existence of a walk of one or more
 * edges, followed forwards (towards dependents) or backwards (towards
 * dependencies).
 */
module Reachability {
  import opened Nodes

  /** Which way edges are followed, as in petgraph's `Direction`. */
  datatype Direction = Outgoing | Incoming

  function NamesOf(vs: seq<Node>): (r: seq<Name>)
    ensures |r| == |vs|
    ensures forall i :: 0 <= i < |vs| ==> r[i] == vs[i].name
  {
    seq(|vs|, i requires 0 <= i < |vs| => vs[i].name)
  }

  /** No two nodes share a name. */
  ghost predicate DistinctNames(vs: seq<Node>) {
    forall i, j :: 0 <= i < j < |vs| ==> vs[i].name != vs[j].name
  }

  /** Every dependency named by one of the first `bound` nodes is the name of a node. */
  ghost predicate ResolvedBefore(vs: seq<Node>, bound: nat) {
    forall v, k :: 0 <= v < bound && v < |vs| && 0 <= k < |vs[v].dependencies| ==> vs[v].dependencies[k] in NamesOf(vs)
  }

  /** Every dependency named by any node is the name of a node: no edge dangles. */
  ghost predicate DependenciesResolve(vs: seq<Node>) {
    ResolvedBefore(vs, |vs|)
  }

  /** The edge `u -> v`: node `v` depends on node `u`. */
  ghost predicate DeclaredEdge(vs: seq<Node>, u: nat, v: nat) {
    u < |vs| && v < |vs| && vs[u].name in vs[v].dependencies
  }

  /** One step in direction `dir`. */
  ghost predicate Step(vs: seq<Node>, dir: Direction, u: nat, w: nat) {
    match dir
    case Outgoing => DeclaredEdge(vs, u, w)
    case Incoming => DeclaredEdge(vs, w, u)
  }

  ghost predicate IsWalk(vs: seq<Node>, dir: Direction, p: seq<nat>) {
    |p| >= 1 && forall i :: 0 <= i < |p| - 1 ==> Step(vs, dir, p[i], p[i + 1])
  }

  /** `v` can be reached from `u` by one or more steps in direction `dir`. */
  ghost predicate Reaches(vs: seq<Node>, dir: Direction, u: nat, v: nat) {
    exists p :: IsWalk(vs, dir, p) && |p| >= 2 && p[0] == u && p[|p| - 1] == v
  }

  /** `v` lies on a directed cycle: it is its own dependent. */
  ghost predicate OnCycle(vs: seq<Node>, v: nat) {
    Reaches(vs, Outgoing, v, v)
  }

  ghost predicate HasCycle(vs: seq<Node>) {
    exists v :: 0 <= v < |vs| && OnCycle(vs, v)
  }

  /** Reachability extends by one step at the end. */
  lemma ReachesAppend(vs: seq<Node>, dir: Direction, u: nat, v: nat, w: nat)
    requires u == v || Reaches(vs, dir, u, v)
    requires Step(vs, dir, v, w)
    ensures Reaches(vs, dir, u, w)
  {
    if u == v {
      assert IsWalk(vs, dir, [u, w]);
    } else {
      var p :| IsWalk(vs, dir, p) && |p| >= 2 && p[0] == u && p[|p| - 1] == v;
      var q := p + [w];
      assert IsWalk(vs, dir, q);
    }
  }

  /** A vertex that reaches anything has a first step to take. */
  lemma ReachesFirstStep(vs: seq<Node>, dir: Direction, u: nat, v: nat)
    ensures Reaches(vs, dir, u, v) ==> exists w: nat :: Step(vs, dir, u, w)
  {
    if Reaches(vs, dir, u, v) {
      var p :| IsWalk(vs, dir, p) && |p| >= 2 && p[0] == u && p[|p| - 1] == v;
      assert Step(vs, dir, u, p[1]);
    }
  }

  /**
   * A set that holds every step out of `start` and out of its own members
   * holds everything reachable from `start`.
   */
  lemma {:induction false} ClosedSetHoldsReachable(vs: seq<Node>, dir: Direction, start: nat, s: set<nat>, v: nat)
    requires forall u, w :: (u == start || u in s) && Step(vs, dir, u, w) ==> w in s
    requires Reaches(vs, dir, start, v)
    ensures v in s
  {
    var p :| IsWalk(vs, dir, p) && |p| >= 2 && p[0] == start && p[|p| - 1] == v;
    var i := 1;
    while i < |p|
      invariant 1 <= i <= |p|
      invariant i == 1 || p[i - 1] in s
    {
      assert Step(vs, dir, p[i - 1], p[i]);
      i := i + 1;
    }
  }

  function Reverse(p: seq<nat>): (r: seq<nat>)
    ensures |r| == |p|
    ensures forall i :: 0 <= i < |p| ==> r[i] == p[|p| - 1 - i]
  {
    if |p| == 0 then [] else Reverse(p[1..]) + [p[0]]
  }

  /** Reversing a walk turns a forward walk into a backward one and vice versa. */
  lemma ReverseWalk(vs: seq<Node>, p: seq<nat>, dir: Direction, dir': Direction)
    requires dir' != dir
    requires IsWalk(vs, dir, p)
    ensures IsWalk(vs, dir', Reverse(p))
  {
    var r := Reverse(p);
    forall i | 0 <= i < |r| - 1
      ensures Step(vs, dir', r[i], r[i + 1])
    {
      var j := |p| - 2 - i;
      assert r[i] == p[j + 1] && r[i + 1] == p[j];
      assert Step(vs, dir, p[j], p[j + 1]);
    }
  }

  /**
   * Dependents and dependencies are dual: `b` is reached from `a` along
   * outgoing edges exactly when `a` is reached from `b` along incoming ones.
   */
  lemma DependentIffDependency(vs: seq<Node>, a: nat, b: nat)
    ensures Reaches(vs, Outgoing, a, b) <==> Reaches(vs, Incoming, b, a)
  {
    if Reaches(vs, Outgoing, a, b) {
      var p :| IsWalk(vs, Outgoing, p) && |p| >= 2 && p[0] == a && p[|p| - 1] == b;
      ReverseWalk(vs, p, Outgoing, Incoming);
      var r := Reverse(p);
      assert r[0] == b && r[|r| - 1] == a;
    }
    if Reaches(vs, Incoming, b, a) {
      var p :| IsWalk(vs, Incoming, p) && |p| >= 2 && p[0] == b && p[|p| - 1] == a;
      ReverseWalk(vs, p, Incoming, Outgoing);
      var r := Reverse(p);
      assert r[0] == a && r[|r| - 1] == b;
    }
  }

  /**
   * A forward walk whose last vertex has an edge back to its first vertex
   * closes a cycle, and every vertex on it lies on that cycle.
   */
  lemma ClosedWalkIsCycle(vs: seq<Node>, p: seq<nat>, k: nat)
    requires IsWalk(vs, Outgoing, p)
    requires DeclaredEdge(vs, p[|p| - 1], p[0])
    requires k < |p|
    ensures OnCycle(vs, p[k])
  {
    var q := p[k..] + p[..k] + [p[k]];
    assert q[0] == p[k] && q[|q| - 1] == p[k];
    forall i | 0 <= i < |q| - 1
      ensures Step(vs, Outgoing, q[i], q[i + 1])
    {
      if i < |p| - k - 1 {
        assert q[i] == p[k + i] && q[i + 1] == p[k + i + 1];
      } else if i == |p| - k - 1 {
        assert q[i] == p[|p| - 1] && q[i + 1] == (if k == 0 then p[k] else p[0]);
      } else {
        var j := i - (|p| - k);
        assert q[i] == p[j];
        assert q[i + 1] == p[j + 1];
      }
    }
    assert IsWalk(vs, Outgoing, q);
  }

  /** Every node names only nodes listed before it, as the unit tests' node lists do. */
  ghost predicate DependenciesListedFirst(vs: seq<Node>) {
    forall v, k :: 0 <= v < |vs| && 0 <= k < |vs[v].dependencies| ==> vs[v].dependencies[k] in NamesOf(vs[..v])
  }

  /** When dependencies are listed first, every edge runs from an earlier node to a later one. */
  lemma ListedFirstEdgeAscends(vs: seq<Node>, u: nat, w: nat)
    requires DistinctNames(vs) && DependenciesListedFirst(vs)
    requires DeclaredEdge(vs, u, w)
    ensures u < w
  {
    var k :| 0 <= k < |vs[w].dependencies| && vs[w].dependencies[k] == vs[u].name;
    var j :| 0 <= j < w && NamesOf(vs[..w])[j] == vs[u].name;
    assert vs[j].name == vs[u].name;
  }

  /** So a forward walk climbs at least one position per step. */
  lemma {:induction false} ListedFirstWalkAscends(vs: seq<Node>, p: seq<nat>)
    requires DistinctNames(vs) && DependenciesListedFirst(vs)
    requires IsWalk(vs, Outgoing, p)
    ensures p[0] + |p| - 1 <= p[|p| - 1]
  {
    var i := 1;
    while i < |p|
      invariant 1 <= i <= |p|
      invariant p[0] + i - 1 <= p[i - 1]
    {
      ListedFirstEdgeAscends(vs, p[i - 1], p[i]);
      i := i + 1;
    }
  }

  /**
   * Nodes that name only earlier nodes declare no dangling dependency and no
   * cycle.
   */
  lemma ListedFirstIsAcyclic(vs: seq<Node>)
    requires DistinctNames(vs) && DependenciesListedFirst(vs)
    ensures DependenciesResolve(vs)
    ensures !HasCycle(vs)
  {
    forall v, k | 0 <= v < |vs| && 0 <= k < |vs[v].dependencies|
      ensures vs[v].dependencies[k] in NamesOf(vs)
    {
      assert vs[v].dependencies[k] in NamesOf(vs[..v]);
      var j :| 0 <= j < v && NamesOf(vs[..v])[j] == vs[v].dependencies[k];
      assert NamesOf(vs)[j] == vs[v].dependencies[k];
    }
    forall v | 0 <= v < |vs|
      ensures !OnCycle(vs, v)
    {
      forall p | IsWalk(vs, Outgoing, p) && |p| >= 2 && p[0] == v
        ensures p[|p| - 1] != v
      {
        ListedFirstWalkAscends(vs, p);
      }
    }
  }
}
