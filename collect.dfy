/**
 * `getAllFileInDirectory` of src/tree.ts: a depth-first walk that pushes every
 * file node it meets onto one result list.
 */
module Collect {
  import opened TreeModel

  /** The ids a list holds. */
  function Elems(s: seq<NodeId>): set<NodeId> {
    set x | x in s
  }

  /** The file nodes under `n`: `n` itself when it is a file, else those under its children. */
  ghost function FilesBelow(nodes: seq<Node>, rank: seq<nat>, n: NodeId): (r: set<NodeId>)
    requires Ranked(nodes, rank) && n < |nodes|
    ensures forall f | f in r :: f < |nodes| && nodes[f].File?
    decreases rank[n]
  {
    if nodes[n].File? then {n}
    else set c, f | c in nodes[n].children && f in FilesBelow(nodes, rank, c) :: f
  }

  /** The file nodes under any of the nodes `cs`. */
  ghost function FilesBelowAll(nodes: seq<Node>, rank: seq<nat>, cs: set<NodeId>): set<NodeId>
    requires Ranked(nodes, rank) && forall c | c in cs :: c < |nodes|
  {
    set c, f | c in cs && f in FilesBelow(nodes, rank, c) :: f
  }

  /** `d` is a directory whose children are all file nodes: it has no subdirectories. */
  ghost predicate OnlyFiles(nodes: seq<Node>, d: NodeId)
    requires d < |nodes|
  {
    nodes[d].Directory? && forall c | c in nodes[d].children :: c < |nodes| && nodes[c].File?
  }

  /** Every id of the list names a file node of the arena. */
  ghost predicate FileIds(nodes: seq<Node>, s: seq<NodeId>) {
    forall k | 0 <= k < |s| :: s[k] < |nodes| && nodes[s[k]].File?
  }

  /**
   * A chain of nodes, each a child of the one before it; every node but the last
   * is therefore a directory.
   */
  ghost predicate IsPath(nodes: seq<Node>, p: seq<NodeId>) {
    |p| >= 1 &&
    (forall k | 0 <= k < |p| :: p[k] < |nodes|) &&
    (forall k | 0 <= k < |p| - 1 :: nodes[p[k]].Directory? && p[k + 1] in nodes[p[k]].children)
  }

  // ---------------------------------------------------------------------------
  // The walk.

  /**
   * The inner `walk(node)`: appends to `files` the file nodes under `n`, in the
   * order the children are visited, and keeps what `files` already held.
   */
  method WalkFiles(nodes: seq<Node>, rank: seq<nat>, n: NodeId, files: seq<NodeId>) returns (out: seq<NodeId>)
    requires Ranked(nodes, rank) && n < |nodes|
    ensures |files| <= |out| && out[..|files|] == files
    ensures Elems(out[|files|..]) == FilesBelow(nodes, rank, n)
    ensures FileIds(nodes, out[|files|..])
    ensures nodes[n].File? ==> out == files + [n]
    ensures OnlyFiles(nodes, n) ==>
      |out| == |files| + |nodes[n].children|
    decreases rank[n], 1
  {
    if nodes[n].File? {
      out := files + [n];
      assert out[|files|..] == [n];
    } else {
      out := WalkChildren(nodes, rank, n, files);
      FilesBelowDirectory(nodes, rank, n);
    }
  }

  /** The directory branch of `walk`: `Array.from(node.children).map(walk)`, in some order of the children. */
  method WalkChildren(nodes: seq<Node>, rank: seq<nat>, n: NodeId, files: seq<NodeId>) returns (out: seq<NodeId>)
    requires Ranked(nodes, rank) && n < |nodes| && nodes[n].Directory?
    ensures Walked(nodes, rank, files, out, nodes[n].children)
    ensures OnlyFiles(nodes, n) ==> |out| == |files| + |nodes[n].children|
    decreases rank[n], 0
  {
    var pending := nodes[n].children;
    out := files;
    assert out[|files|..] == [];
    while pending != {}
      invariant pending <= nodes[n].children
      invariant Walked(nodes, rank, files, out, nodes[n].children - pending)
      invariant OnlyFiles(nodes, n) ==> |out| + |pending| == |files| + |nodes[n].children|
      decreases |pending|
    {
      var c :| c in pending;
      var next := WalkFiles(nodes, rank, c, out);
      WalkedStep(nodes, rank, files, out, next, nodes[n].children - pending, c);
      assert nodes[n].children - pending + {c} == nodes[n].children - (pending - {c});
      out := next;
      pending := pending - {c};
    }
    assert nodes[n].children - pending == nodes[n].children;
  }

  /**
   * The walk's progress through a directory's children: `out` extends `files` by
   * exactly the file nodes under the children in `done`.
   */
  ghost predicate Walked(nodes: seq<Node>, rank: seq<nat>, files: seq<NodeId>, out: seq<NodeId>, done: set<NodeId>)
    requires Ranked(nodes, rank) && forall c | c in done :: c < |nodes|
  {
    |files| <= |out| && out[..|files|] == files &&
    Elems(out[|files|..]) == FilesBelowAll(nodes, rank, done) &&
    FileIds(nodes, out[|files|..])
  }

  /** `getAllFileInDirectory(node)`: the file nodes under a directory. */
  method GetAllFileInDirectory(nodes: seq<Node>, rank: seq<nat>, d: NodeId) returns (files: seq<NodeId>)
    requires Ranked(nodes, rank) && d < |nodes| && nodes[d].Directory?
    ensures FileIds(nodes, files)
    ensures Elems(files) == FilesBelow(nodes, rank, d)
    ensures OnlyFiles(nodes, d) ==>
      Elems(files) == nodes[d].children && |files| == |nodes[d].children|
  {
    files := WalkFiles(nodes, rank, d, []);
    assert files[0..] == files;
    FlatFiles(nodes, rank, d, files);
  }

  // ---------------------------------------------------------------------------
  // Lemmas.

  /** Appending after `out` adds exactly the ids appended, and keeps a list of files one of files. */
  lemma ElemsAppend(nodes: seq<Node>, out: seq<NodeId>, next: seq<NodeId>, i: nat)
    requires i <= |out| <= |next| && next[..|out|] == out
    ensures Elems(next[i..]) == Elems(out[i..]) + Elems(next[|out|..])
    ensures FileIds(nodes, out[i..]) && FileIds(nodes, next[|out|..]) ==> FileIds(nodes, next[i..])
  {
    assert next[i..] == out[i..] + next[|out|..];
  }

  /** The files under a directory are those under its children. */
  lemma FilesBelowDirectory(nodes: seq<Node>, rank: seq<nat>, n: NodeId)
    requires Ranked(nodes, rank) && n < |nodes| && nodes[n].Directory?
    ensures FilesBelow(nodes, rank, n) == FilesBelowAll(nodes, rank, nodes[n].children)
  {
  }

  /** Walking one more child `c` extends the progress by the files under `c`. */
  lemma WalkedStep(nodes: seq<Node>, rank: seq<nat>, files: seq<NodeId>, out: seq<NodeId>, next: seq<NodeId>,
                   done: set<NodeId>, c: NodeId)
    requires Ranked(nodes, rank) && c < |nodes| && forall x | x in done :: x < |nodes|
    requires Walked(nodes, rank, files, out, done)
    requires |out| <= |next| && next[..|out|] == out
    requires Elems(next[|out|..]) == FilesBelow(nodes, rank, c) && FileIds(nodes, next[|out|..])
    ensures Walked(nodes, rank, files, next, done + {c})
  {
    ElemsAppend(nodes, out, next, |files|);
    FilesBelowAllAdd(nodes, rank, done, c);
    assert next[..|files|] == out[..|files|];
  }

  /** Adding one child to the walked set adds the files under that child. */
  lemma FilesBelowAllAdd(nodes: seq<Node>, rank: seq<nat>, done: set<NodeId>, c: NodeId)
    requires Ranked(nodes, rank) && c < |nodes| && forall x | x in done :: x < |nodes|
    ensures FilesBelowAll(nodes, rank, done + {c}) ==
      FilesBelowAll(nodes, rank, done) + FilesBelow(nodes, rank, c)
  {
  }

  /** A walk of a directory whose children are all files finds exactly those children. */
  lemma FlatFiles(nodes: seq<Node>, rank: seq<nat>, d: NodeId, files: seq<NodeId>)
    requires Ranked(nodes, rank) && d < |nodes| && nodes[d].Directory?
    requires Elems(files) == FilesBelow(nodes, rank, d)
    ensures OnlyFiles(nodes, d) ==> Elems(files) == nodes[d].children
  {
    if OnlyFiles(nodes, d) {
      FlatDirectory(nodes, rank, d);
    }
  }

  /** Under a directory whose children are all files, the files found are exactly those children. */
  lemma FlatDirectory(nodes: seq<Node>, rank: seq<nat>, d: NodeId)
    requires Ranked(nodes, rank) && d < |nodes| && nodes[d].Directory?
    requires OnlyFiles(nodes, d)
    ensures FilesBelow(nodes, rank, d) == nodes[d].children
  {
    FlatChildrenFound(nodes, rank, d);
    FlatFoundChildren(nodes, rank, d);
  }

  lemma FlatChildrenFound(nodes: seq<Node>, rank: seq<nat>, d: NodeId)
    requires Ranked(nodes, rank) && d < |nodes| && nodes[d].Directory?
    requires OnlyFiles(nodes, d)
    ensures nodes[d].children <= FilesBelow(nodes, rank, d)
  {
    forall c | c in nodes[d].children
      ensures c in FilesBelow(nodes, rank, d)
    {
      assert FilesBelow(nodes, rank, c) == {c};
    }
  }

  lemma FlatFoundChildren(nodes: seq<Node>, rank: seq<nat>, d: NodeId)
    requires Ranked(nodes, rank) && d < |nodes| && nodes[d].Directory?
    requires OnlyFiles(nodes, d)
    ensures FilesBelow(nodes, rank, d) <= nodes[d].children
  {
    forall f | f in FilesBelow(nodes, rank, d)
      ensures f in nodes[d].children
    {
      var c :| c in nodes[d].children && f in FilesBelow(nodes, rank, c);
      assert FilesBelow(nodes, rank, c) == {c};
    }
  }

  /** Every file found under `n` is reached from `n` along a chain of children. */
  lemma {:induction false} FilesBelowReached(nodes: seq<Node>, rank: seq<nat>, n: NodeId, f: NodeId)
    requires Ranked(nodes, rank) && n < |nodes|
    requires f in FilesBelow(nodes, rank, n)
    ensures exists p :: IsPath(nodes, p) && p[0] == n && p[|p| - 1] == f
    decreases rank[n]
  {
    if nodes[n].File? {
      assert IsPath(nodes, [n]);
    } else {
      var c :| c in nodes[n].children && f in FilesBelow(nodes, rank, c);
      FilesBelowReached(nodes, rank, c, f);
      var p :| IsPath(nodes, p) && p[0] == c && p[|p| - 1] == f;
      var q := [n] + p;
      assert forall k | 1 <= k < |q| :: q[k] == p[k - 1];
      assert IsPath(nodes, q);
    }
  }

  /** Every file reached from `n` along a chain of children is found under `n`. */
  lemma {:induction false} ReachedFilesBelow(nodes: seq<Node>, rank: seq<nat>, p: seq<NodeId>)
    requires Ranked(nodes, rank) && IsPath(nodes, p) && nodes[p[|p| - 1]].File?
    ensures p[|p| - 1] in FilesBelow(nodes, rank, p[0])
    decreases |p|
  {
    if |p| > 1 {
      var q := p[1..];
      assert IsPath(nodes, q) by {
        assert forall k | 0 <= k < |q| :: q[k] == p[k + 1];
      }
      ReachedFilesBelow(nodes, rank, q);
      assert p[1] in nodes[p[0]].children;
    }
  }

  /**
   * The files `getAllFileInDirectory` returns are exactly the file nodes reachable
   * from the directory through `children`.
   */
  lemma FilesBelowReachable(nodes: seq<Node>, rank: seq<nat>, d: NodeId, f: NodeId)
    requires Ranked(nodes, rank) && d < |nodes|
    ensures f in FilesBelow(nodes, rank, d) <==>
      f < |nodes| && nodes[f].File? && exists p :: IsPath(nodes, p) && p[0] == d && p[|p| - 1] == f
  {
    if f in FilesBelow(nodes, rank, d) {
      FilesBelowReached(nodes, rank, d, f);
    }
    if f < |nodes| && nodes[f].File? && exists p :: IsPath(nodes, p) && p[0] == d && p[|p| - 1] == f {
      var p :| IsPath(nodes, p) && p[0] == d && p[|p| - 1] == f;
      ReachedFilesBelow(nodes, rank, p);
    }
  }
}
