/**
 * The declared unit of the repository (`src/types/node.rs`): a named node
 * rooted at a base path, with include and exclude glob patterns and the names
 * of the nodes it depends on.
 */
module Nodes {
  import opened Wrappers
  import opened Paths

  type Name = string

  /** The node's free-form metadata, carried through unchanged and never inspected. */
  datatype Json =
    | Null
    | Bool(b: bool)
    | Number(n: int)
    | Str(s: string)
    | Array(items: seq<Json>)
    | Object(fields: seq<(string, Json)>)

  datatype Node = Node(
    name: Name,
    path: Path,
    includedPaths: seq<Path>,
    excludedPaths: seq<Path>,
    dependencies: seq<Name>,
    metadata: Option<Json>)

  datatype NodeCreationError = NoIncludedPaths(name: Name)

  /**
   * The glob engine the matching relies on, given as two functions: `compile`
   * turns a pattern into a compiled pattern of type `P`, or fails on malformed
   * syntax; `matches` tests a compiled pattern against a path.
   */
  datatype Glob<!P> = Glob(compile: Path -> Option<P>, matches: (P, Path) -> bool)

  /** A pattern matches a path when it compiles and the compiled pattern matches; a malformed pattern never matches. */
  predicate PatternMatches<P>(glob: Glob<P>, pattern: Path, p: Path) {
    match glob.compile(pattern)
    case None => false
    case Some(compiled) => glob.matches(compiled, p)
  }

  /** `Node::new`: the only check is that at least one include pattern is given. */
  function NewNode(
    name: Name, path: Path, includedPaths: seq<Path>, excludedPaths: seq<Path>,
    dependencies: seq<Name>, metadata: Option<Json>): (r: Result<Node, NodeCreationError>)
    ensures r.Err? <==> |includedPaths| == 0
    ensures r.Err? ==> r.error == NoIncludedPaths(name)
    ensures r.Ok? ==> && r.value.name == name && r.value.path == path
                      && r.value.includedPaths == includedPaths
                      && r.value.excludedPaths == excludedPaths
                      && r.value.dependencies == dependencies
                      && r.value.metadata == metadata
  {
    if |includedPaths| == 0 then Err(NoIncludedPaths(name))
    else Ok(Node(name, path, includedPaths, excludedPaths, dependencies, metadata))
  }

  /** Some pattern of `patterns`, joined onto `base`, matches `p`. */
  function AnyPatternMatches<P>(glob: Glob<P>, base: Path, patterns: seq<Path>, p: Path): (r: bool)
    ensures r <==> exists i :: 0 <= i < |patterns| && PatternMatches(glob, Join(base, patterns[i]), p)
  {
    if |patterns| == 0 then false
    else PatternMatches(glob, Join(base, patterns[0]), p) || AnyPatternMatches(glob, base, patterns[1..], p)
  }

  /** `Node::includes_path`: some include pattern matches and no exclude pattern does, each resolved against the node's path. */
  function IncludesPath<P>(glob: Glob<P>, node: Node, p: Path): (r: bool)
    ensures r <==> && (exists i :: 0 <= i < |node.includedPaths| && PatternMatches(glob, Join(node.path, node.includedPaths[i]), p))
                   && !(exists j :: 0 <= j < |node.excludedPaths| && PatternMatches(glob, Join(node.path, node.excludedPaths[j]), p))
  {
    AnyPatternMatches(glob, node.path, node.includedPaths, p)
    && !AnyPatternMatches(glob, node.path, node.excludedPaths, p)
  }

  /** Exclusion wins: a path matched by an exclude pattern is never included, whatever the include patterns say. */
  lemma ExclusionWins<P>(glob: Glob<P>, node: Node, p: Path, j: nat)
    requires j < |node.excludedPaths|
    requires PatternMatches(glob, Join(node.path, node.excludedPaths[j]), p)
    ensures !IncludesPath(glob, node, p)
  {
  }

  /** A node whose include patterns all fail to compile includes nothing; no error is raised. */
  lemma MalformedIncludesMatchNothing<P>(glob: Glob<P>, node: Node, p: Path)
    requires forall i :: 0 <= i < |node.includedPaths| ==> glob.compile(Join(node.path, node.includedPaths[i])).None?
    ensures !IncludesPath(glob, node, p)
  {
  }

  /** A malformed exclude pattern excludes nothing: dropping it leaves the answer unchanged. */
  lemma MalformedExcludeIgnored<P>(glob: Glob<P>, node: Node, p: Path, j: nat)
    requires j < |node.excludedPaths|
    requires glob.compile(Join(node.path, node.excludedPaths[j])).None?
    ensures IncludesPath(glob, node, p)
        == IncludesPath(glob, node.(excludedPaths := node.excludedPaths[..j] + node.excludedPaths[j+1..]), p)
  {
    var ex := node.excludedPaths;
    var ex' := ex[..j] + ex[j+1..];
    var node' := node.(excludedPaths := ex');
    forall k | 0 <= k < |ex'|
      ensures ex'[k] == (if k < j then ex[k] else ex[k+1])
    {
    }
    if k :| 0 <= k < |ex| && PatternMatches(glob, Join(node.path, ex[k]), p) {
      assert k != j;
      var k' := if k < j then k else k - 1;
      assert PatternMatches(glob, Join(node'.path, ex'[k']), p);
    }
    if k' :| 0 <= k' < |ex'| && PatternMatches(glob, Join(node'.path, ex'[k']), p) {
      var k := if k' < j then k' else k' + 1;
      assert PatternMatches(glob, Join(node.path, ex[k]), p);
    }
  }

  /** With no exclude patterns, a path is included exactly when some include pattern matches it. */
  lemma NoExcludesMeansAnyInclude<P>(glob: Glob<P>, node: Node, p: Path)
    requires |node.excludedPaths| == 0
    ensures IncludesPath(glob, node, p) <==> exists i :: 0 <= i < |node.includedPaths| && PatternMatches(glob, Join(node.path, node.includedPaths[i]), p)
  {
  }
}
