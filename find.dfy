/**
 * `findNodeByRelativePath` of src/tree.ts: a level-by-level search of the
 * directories below a tree for the one whose `relative` path is asked for.
 * Within each list of sibling directories the first match wins; otherwise the
 * search continues below every sibling and the results are concatenated.
 */
module Find {
  import opened Wrappers
  import opened TreeModel

  /** `x.relative === relativePath` on a directory node. */
  predicate IsMatch(n: Node, path: string) {
    n.Directory? && n.relative == path
  }

  /** `Array.from(set)`: the elements of a set in some order, each once. */
  ghost function Enumerate(s: set<NodeId>): (r: seq<NodeId>)
    ensures |r| == |s|
    ensures forall x :: x in r <==> x in s
    decreases |s|
  {
    if s == {} then []
    else
      var x :| x in s;
      [x] + Enumerate(s - {x})
  }

  /** `Array.from(node.children).filter(filterDirectoryNodes)`. */
  ghost function DirChildren(nodes: seq<Node>, rank: seq<nat>, d: NodeId): (r: seq<NodeId>)
    requires Ranked(nodes, rank) && d < |nodes| && nodes[d].Directory?
    ensures forall c :: c in r <==> c in nodes[d].children && nodes[c].Directory?
    ensures forall k | 0 <= k < |r| :: r[k] < |nodes| && rank[r[k]] < rank[d]
  {
    var all := Enumerate(nodes[d].children);
    assert forall k | 0 <= k < |all| :: all[k] in all;
    var r := FilterDirectoryNodes(nodes, all);
    assert forall k | 0 <= k < |r| :: r[k] in r;
    r
  }

  /** `nodes.find(x => x.relative === relativePath)`: the index of the first match, or `|ids|`. */
  function FirstMatch(nodes: seq<Node>, ids: seq<NodeId>, path: string): (i: nat)
    requires forall k | 0 <= k < |ids| :: ids[k] < |nodes|
    ensures i <= |ids|
    ensures i < |ids| ==> IsMatch(nodes[ids[i]], path)
    ensures forall k | 0 <= k < i :: !IsMatch(nodes[ids[k]], path)
    decreases |ids|
  {
    if ids == [] then 0
    else if IsMatch(nodes[ids[0]], path) then 0
    else 1 + FirstMatch(nodes, ids[1..], path)
  }

  /**
   * The inner `walk(nodes)`: the first match among `ids` alone, or else the
   * matches found below each directory of `ids`, concatenated. Every id ranks
   * below `bound`.
   */
  ghost function Walk(nodes: seq<Node>, rank: seq<nat>, path: string, ids: seq<NodeId>, bound: nat): seq<NodeId>
    requires Ranked(nodes, rank)
    requires forall k | 0 <= k < |ids| :: ids[k] < |nodes| && rank[ids[k]] < bound
    decreases bound, 1
  {
    var i := FirstMatch(nodes, ids, path);
    if i < |ids| then [ids[i]] else WalkEach(nodes, rank, path, ids, bound)
  }

  /** `nodes.filter(filterDirectoryNodes).map(node => walk(dirs of node)).flat()`. */
  ghost function WalkEach(nodes: seq<Node>, rank: seq<nat>, path: string, ids: seq<NodeId>, bound: nat): seq<NodeId>
    requires Ranked(nodes, rank)
    requires forall k | 0 <= k < |ids| :: ids[k] < |nodes| && rank[ids[k]] < bound
    decreases bound, 0, |ids|
  {
    if ids == [] then []
    else
      var h := ids[0];
      (if nodes[h].Directory? then Walk(nodes, rank, path, DirChildren(nodes, rank, h), rank[h]) else []) +
      WalkEach(nodes, rank, path, ids[1..], bound)
  }

  /**
   * `findNodeByRelativePath(relativePath, tree)`: the first node `walk` returns for
   * the directory children of `tree`, or `None` (JavaScript `undefined`) when the
   * walk finds nothing; the throw after `if (found)` is never reached, since an
   * array is always truthy.
   */
  ghost function FindNodeByRelativePath(nodes: seq<Node>, rank: seq<nat>, path: string, tree: NodeId): Option<NodeId>
    requires Ranked(nodes, rank) && tree < |nodes| && nodes[tree].Directory?
  {
    var found := Walk(nodes, rank, path, DirChildren(nodes, rank, tree), rank[tree]);
    if |found| > 0 then Some(found[0]) else None
  }

  // ---------------------------------------------------------------------------
  // What the search finds.

  /** A chain of directories, each a child of the one before it. */
  ghost predicate DirPath(nodes: seq<Node>, p: seq<NodeId>) {
    |p| >= 1 &&
    (forall k | 0 <= k < |p| :: p[k] < |nodes| && nodes[p[k]].Directory?) &&
    (forall k | 0 <= k < |p| - 1 :: p[k + 1] in nodes[p[k]].children)
  }

  /** A chain of directories that ends at a directory whose `relative` is `path`. */
  ghost predicate MatchPath(nodes: seq<Node>, path: string, p: seq<NodeId>) {
    DirPath(nodes, p) && nodes[p[|p| - 1]].relative == path
  }

  /** Some directory reached from `ids` through at least `depth` child steps matches. */
  ghost predicate Found(nodes: seq<Node>, path: string, ids: seq<NodeId>, depth: nat) {
    exists p :: MatchPath(nodes, path, p) && |p| > depth && p[0] in ids
  }

  /** `x` is a match reached from `ids` through at least `depth` child steps. */
  ghost predicate FoundAt(nodes: seq<Node>, path: string, ids: seq<NodeId>, depth: nat, x: NodeId) {
    exists p :: MatchPath(nodes, path, p) && |p| > depth && p[0] in ids && p[|p| - 1] == x
  }

  /** Prefixing a chain with the parent of its first directory. */
  lemma PathCons(nodes: seq<Node>, h: NodeId, p: seq<NodeId>)
    requires h < |nodes| && nodes[h].Directory? && DirPath(nodes, p) && p[0] in nodes[h].children
    ensures DirPath(nodes, [h] + p) && ([h] + p)[|p|] == p[|p| - 1]
  {
    var q := [h] + p;
    assert forall k | 1 <= k < |q| :: q[k] == p[k - 1];
  }

  /** Dropping the first directory of a chain of two or more. */
  lemma PathTail(nodes: seq<Node>, p: seq<NodeId>)
    requires DirPath(nodes, p) && |p| >= 2
    ensures DirPath(nodes, p[1..]) && p[1] in nodes[p[0]].children && p[1..][|p| - 2] == p[|p| - 1]
  {
    var q := p[1..];
    assert forall k | 0 <= k < |q| :: q[k] == p[k + 1];
  }

  /**
   * Every node `walk(ids)` returns is a match reached from `ids`, and `walk(ids)`
   * comes back empty exactly when no directory reached from `ids` matches.
   */
  lemma {:induction false} WalkSpec(nodes: seq<Node>, rank: seq<nat>, path: string, ids: seq<NodeId>, bound: nat)
    requires Ranked(nodes, rank)
    requires forall k | 0 <= k < |ids| :: ids[k] < |nodes| && rank[ids[k]] < bound
    ensures forall x | x in Walk(nodes, rank, path, ids, bound) :: FoundAt(nodes, path, ids, 0, x)
    ensures Walk(nodes, rank, path, ids, bound) == [] <==> !Found(nodes, path, ids, 0)
    decreases bound, 1
  {
    var i := FirstMatch(nodes, ids, path);
    if i < |ids| {
      assert MatchPath(nodes, path, [ids[i]]);
      assert Walk(nodes, rank, path, ids, bound) == [ids[i]];
    } else {
      WalkEachSpec(nodes, rank, path, ids, bound);
      if Found(nodes, path, ids, 0) {
        var p :| MatchPath(nodes, path, p) && |p| > 0 && p[0] in ids;
        var k :| 0 <= k < |ids| && ids[k] == p[0];
        assert !IsMatch(nodes[p[0]], path);
        assert MatchPath(nodes, path, p) && |p| > 1 && p[0] in ids;
      }
    }
  }

  /**
   * Every node the per-directory step returns is a match strictly below `ids`,
   * and it comes back empty exactly when no directory strictly below `ids` matches.
   */
  lemma {:induction false} WalkEachSpec(nodes: seq<Node>, rank: seq<nat>, path: string, ids: seq<NodeId>, bound: nat)
    requires Ranked(nodes, rank)
    requires forall k | 0 <= k < |ids| :: ids[k] < |nodes| && rank[ids[k]] < bound
    ensures forall x | x in WalkEach(nodes, rank, path, ids, bound) :: FoundAt(nodes, path, ids, 1, x)
    ensures WalkEach(nodes, rank, path, ids, bound) == [] <==> !Found(nodes, path, ids, 1)
    decreases bound, 0, |ids|
  {
    if ids == [] {
      return;
    }
    var h := ids[0];
    var rest := ids[1..];
    WalkEachSpec(nodes, rank, path, rest, bound);
    var tail := WalkEach(nodes, rank, path, rest, bound);
    if nodes[h].Directory? {
      var kids := DirChildren(nodes, rank, h);
      WalkSpec(nodes, rank, path, kids, rank[h]);
      var head := Walk(nodes, rank, path, kids, rank[h]);
      assert WalkEach(nodes, rank, path, ids, bound) == head + tail;
      HeadFound(nodes, rank, path, h, ids);
      forall x | x in head
        ensures FoundAt(nodes, path, ids, 1, x)
      {
        HeadFoundAt(nodes, rank, path, h, ids, x);
      }
    } else {
      assert WalkEach(nodes, rank, path, ids, bound) == tail;
      FileHeadFound(nodes, path, ids);
    }
    forall x | x in tail
      ensures FoundAt(nodes, path, ids, 1, x)
    {
      RestFoundAt(nodes, path, ids, x);
    }
    RestFound(nodes, path, ids);
  }

  /** A match below a directory child of `ids[0]` is a match strictly below `ids`. */
  lemma HeadFoundAt(nodes: seq<Node>, rank: seq<nat>, path: string, h: NodeId, ids: seq<NodeId>, x: NodeId)
    requires Ranked(nodes, rank) && h < |nodes| && nodes[h].Directory? && ids != [] && ids[0] == h
    requires FoundAt(nodes, path, DirChildren(nodes, rank, h), 0, x)
    ensures FoundAt(nodes, path, ids, 1, x)
  {
    var p :| MatchPath(nodes, path, p) && |p| > 0 && p[0] in DirChildren(nodes, rank, h) && p[|p| - 1] == x;
    PathCons(nodes, h, p);
    assert MatchPath(nodes, path, [h] + p);
  }

  /** A match strictly below `ids[1..]` is a match strictly below `ids`. */
  lemma RestFoundAt(nodes: seq<Node>, path: string, ids: seq<NodeId>, x: NodeId)
    requires ids != [] && FoundAt(nodes, path, ids[1..], 1, x)
    ensures FoundAt(nodes, path, ids, 1, x)
  {
    var p :| MatchPath(nodes, path, p) && |p| > 1 && p[0] in ids[1..] && p[|p| - 1] == x;
    assert p[0] in ids;
  }

  /** Nothing lies below a file, so a file first in `ids` adds no match. */
  lemma FileHeadFound(nodes: seq<Node>, path: string, ids: seq<NodeId>)
    requires ids != [] && ids[0] < |nodes| && nodes[ids[0]].File?
    ensures Found(nodes, path, ids, 1) <==> Found(nodes, path, ids[1..], 1)
  {
    if Found(nodes, path, ids, 1) {
      var p :| MatchPath(nodes, path, p) && |p| > 1 && p[0] in ids;
      assert p[0] != ids[0];
      assert p[0] in ids[1..];
    }
    RestFound(nodes, path, ids);
  }

  /** A match strictly below the first directory `h` of `ids` is a match below one of its directory children. */
  lemma HeadFound(nodes: seq<Node>, rank: seq<nat>, path: string, h: NodeId, ids: seq<NodeId>)
    requires Ranked(nodes, rank) && h < |nodes| && nodes[h].Directory? && ids != [] && ids[0] == h
    ensures Found(nodes, path, ids, 1) <==>
      Found(nodes, path, DirChildren(nodes, rank, h), 0) || Found(nodes, path, ids[1..], 1)
  {
    var kids := DirChildren(nodes, rank, h);
    if Found(nodes, path, ids, 1) {
      var p :| MatchPath(nodes, path, p) && |p| > 1 && p[0] in ids;
      if p[0] == h {
        PathTail(nodes, p);
        assert p[1..][0] in kids;
        assert MatchPath(nodes, path, p[1..]);
      } else {
        assert p[0] in ids[1..];
      }
    }
    if Found(nodes, path, kids, 0) {
      var p :| MatchPath(nodes, path, p) && |p| > 0 && p[0] in kids;
      PathCons(nodes, h, p);
      assert MatchPath(nodes, path, [h] + p);
    }
    if Found(nodes, path, ids[1..], 1) {
      var p :| MatchPath(nodes, path, p) && |p| > 1 && p[0] in ids[1..];
      assert p[0] in ids;
    }
  }

  /** Matches strictly below the rest of `ids` are matches strictly below `ids`. */
  lemma RestFound(nodes: seq<Node>, path: string, ids: seq<NodeId>)
    requires ids != []
    ensures Found(nodes, path, ids[1..], 1) ==> Found(nodes, path, ids, 1)
  {
    if Found(nodes, path, ids[1..], 1) {
      var p :| MatchPath(nodes, path, p) && |p| > 1 && p[0] in ids[1..];
      assert p[0] in ids;
    }
  }

  /**
   * `findNodeByRelativePath` returns a directory strictly below `tree`, reached
   * through directories, whose `relative` is the path asked for; it returns
   * nothing exactly when no such directory exists. The tree itself is never
   * compared.
   */
  lemma FindNodeSpec(nodes: seq<Node>, rank: seq<nat>, path: string, tree: NodeId)
    requires Ranked(nodes, rank) && tree < |nodes| && nodes[tree].Directory?
    ensures var r := FindNodeByRelativePath(nodes, rank, path, tree);
      (r.Some? ==> r.value < |nodes| && IsMatch(nodes[r.value], path) && FoundAt(nodes, path, [tree], 1, r.value)) &&
      (r.None? <==> !Found(nodes, path, [tree], 1))
  {
    WalkEachSpec(nodes, rank, path, [tree], rank[tree] + 1);
    assert [tree][1..] == [];
    var found := Walk(nodes, rank, path, DirChildren(nodes, rank, tree), rank[tree]);
    assert WalkEach(nodes, rank, path, [tree], rank[tree] + 1) == found + [];
    if |found| > 0 {
      assert found[0] in WalkEach(nodes, rank, path, [tree], rank[tree] + 1);
      var p :| MatchPath(nodes, path, p) && |p| > 1 && p[0] in [tree] && p[|p| - 1] == found[0];
      assert p[|p| - 1] < |nodes|;
    }
  }
}
