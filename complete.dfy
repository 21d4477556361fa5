/**
 * What deriveSpecTree of src/tree.ts guarantees for well-formed paths: the
 * returned tree has no directory below itself, so getAllFileInDirectory
 * terminates on it, and the files found below the root are exactly one file
 * node per processed spec.
 *
 * A path is well-formed when every directory segment is non-empty and is not the
 * root key "/" (no leading, doubled or trailing separator in the directory part),
 * and the spec is not self-named like "a/a". The separator is one character.
 */
module Complete {
  import opened Wrappers
  import opened Paths
  import opened TreeModel
  import opened Derive
  import opened Wire
  import opened Attach
  import opened Build
  import opened Collect

  /** Every directory segment a spec contributes is a proper name. */
  ghost predicate ProperSegments(spec: Spec, sep: string) {
    !SkipsDerivation(spec, sep, Current) ==> forall x | x in Segments(spec, sep) :: x != "" && x != "/"
  }

  /** The inputs for which the tree is a proper tree. */
  ghost predicate WellFormed(specs: seq<Spec>, sep: string) {
    && |sep| == 1
    && forall j | 0 <= j < |specs| :: !SelfNamed(specs[j], sep) && ProperSegments(specs[j], sep)
  }

  /** No derived directory has the empty path or the root's path "/". */
  ghost predicate Clean(b: Builder) {
    forall i | 1 <= i < |b.nodes| :: b.nodes[i].Directory? && b.nodes[i].relative != "" && b.nodes[i].relative != "/"
  }

  // ---------------------------------------------------------------------------
  // The derived state.

  /** A prefix of proper segments is neither empty nor "/". */
  lemma PrefixClean(segs: seq<string>, sep: string, k: nat)
    requires |sep| == 1 && 1 <= k <= |segs|
    requires forall x | x in segs :: x != "" && x != "/"
    ensures Prefix(segs, sep, k) != "" && Prefix(segs, sep, k) != "/"
  {
    var ps := segs[..k];
    assert segs[k - 1] in segs;
    if k == 1 {
      assert Prefix(segs, sep, k) == segs[0];
    } else {
      assert |ps| == k && ps[|ps| - 1] == segs[k - 1];
      assert |Prefix(segs, sep, k)| >= |sep| + |segs[k - 1]|;
    }
  }

  lemma {:induction false} DerivePartsClean(b: Builder, segs: seq<string>, sep: string, k: nat)
    requires Clean(b) && |sep| == 1 && k <= |segs|
    requires forall x | x in segs :: x != "" && x != "/"
    ensures Clean(DeriveParts(b, segs, sep, k))
    decreases k
  {
    if k > 0 {
      DerivePartsClean(b, segs, sep, k - 1);
      PrefixClean(segs, sep, k);
    }
  }

  /** The derivation over well-formed specs makes no directory with path "" or "/". */
  lemma {:induction false} DeriveAllClean(specs: seq<Spec>, sep: string)
    requires WellFormed(specs, sep)
    ensures Clean(DeriveAll(specs, sep, Current))
    decreases |specs|
  {
    if specs != [] {
      var init := specs[..|specs| - 1];
      var last := specs[|specs| - 1];
      assert WellFormed(init, sep) by {
        forall j | 0 <= j < |init| ensures !SelfNamed(init[j], sep) && ProperSegments(init[j], sep) {
          assert init[j] == specs[j];
        }
      }
      DeriveAllClean(init, sep);
      assert ProperSegments(last, sep);
      if !SkipsDerivation(last, sep, Current) {
        var segs := Segments(last, sep);
        DerivePartsClean(DeriveAll(init, sep, Current), segs, sep, |segs|);
      }
    }
  }

  /**
   * For well-formed specs the registry keeps the root under "/", has no key "",
   * and every derived directory below a non-root parent extends its parent's path.
   */
  lemma DerivedRootAlone(specs: seq<Spec>, sep: string)
    requires WellFormed(specs, sep)
    ensures var d := DeriveAll(specs, sep, Current);
      && Shaped(d, sep) && Clean(d) && Wirable(d)
      && "/" in d.registry && d.registry["/"] == RootId && "" !in d.registry
  {
    var d := DeriveAll(specs, sep, Current);
    DeriveAllShaped(specs, sep, Current);
    DeriveAllClean(specs, sep);
    ShapedWirable(d, sep);
    DeriveAllKeys(specs, sep, Current, "/");
  }

  /** The parent of a derived directory is the root, or a directory whose path its own path extends by one segment. */
  lemma ParentLink(d: Builder, sep: string, c: NodeId)
    requires Shaped(d, sep) && Clean(d) && "" !in d.registry && 1 <= c < |d.nodes|
    ensures d.nodes[c].parent.Some? && d.nodes[c].parent.value < c
    ensures var p := d.nodes[c].parent.value;
      p == RootId || d.nodes[c].relative == d.nodes[p].relative + sep + d.nodes[c].name
  {
    assert DirectoryShaped(d.nodes, c, sep);
  }

  // ---------------------------------------------------------------------------
  // A rank for the returned tree.

  /** The length of the longest directory path in the arena. */
  function MaxRelative(nodes: seq<Node>): (m: nat)
    ensures forall i | 0 <= i < |nodes| && nodes[i].Directory? :: |nodes[i].relative| <= m
    decreases |nodes|
  {
    if nodes == [] then 0
    else
      var rest := MaxRelative(nodes[1..]);
      assert forall i | 1 <= i < |nodes| :: nodes[i] == nodes[1..][i - 1];
      if nodes[0].Directory? && |nodes[0].relative| > rest then |nodes[0].relative| else rest
  }

  /**
   * Files rank lowest, the root highest, and any other directory the lower the
   * longer its path.
   */
  function TreeRank(nodes: seq<Node>): (rank: seq<nat>)
    ensures |rank| == |nodes|
  {
    var m := MaxRelative(nodes);
    seq(|nodes|, i requires 0 <= i < |nodes| =>
      if nodes[i].File? then 0 else if i == RootId then m + 2 else m + 1 - |nodes[i].relative|)
  }

  /** The arena of a tree: `n` directories, then one file per spec holding that spec, in order. */
  ghost predicate Layout(t: SpecTree, specs: seq<Spec>, n: nat) {
    && |t.nodes| == n + |specs|
    && (forall i | 0 <= i < n :: t.nodes[i].Directory?)
    && (forall f | n <= f < |t.nodes| :: t.nodes[f].File? && t.nodes[f].data == specs[f - n])
  }

  /** The derived nodes are still directories in the returned tree. */
  lemma BuiltDirectories(specs: seq<Spec>, sep: string, v: Variant, t: SpecTree)
    requires BuildTree(specs, sep, v) == Success(t)
    ensures DirectoryCount(specs, sep, v) <= |t.nodes|
    ensures forall i | 0 <= i < DirectoryCount(specs, sep, v) :: t.nodes[i].Directory?
  {
    var w := WiredState(specs, sep, v);
    WiredCount(specs, sep, v);
    forall i | 0 <= i < |w.nodes| ensures t.nodes[i].Directory? {
      WiredDirectory(specs, sep, v, i);
      FinishKeeps(w, specs, sep, v, t, i);
    }
  }

  /** A node after the derived ones is the file of the spec at its offset. */
  lemma FileAt(specs: seq<Spec>, sep: string, v: Variant, t: SpecTree, n: nat, f: nat)
    requires BuildTree(specs, sep, v) == Success(t) && n == DirectoryCount(specs, sep, v) && n <= f < |t.nodes|
    ensures f - n < |specs| && t.nodes[f].File? && t.nodes[f].data == specs[f - n]
  {
    BuiltLength(specs, sep, v, t);
    BuildFile(specs, sep, v, t, f - n);
  }

  /** The returned arena holds one node per derived directory and one per spec. */
  lemma BuiltLength(specs: seq<Spec>, sep: string, v: Variant, t: SpecTree)
    requires BuildTree(specs, sep, v) == Success(t)
    ensures |t.nodes| == DirectoryCount(specs, sep, v) + |specs|
  {
    WiredCount(specs, sep, v);
    FinishSuccess(WiredState(specs, sep, v), specs, sep, v, t);
  }

  /** After the derived nodes come the files of the specs, in order. */
  lemma BuiltFiles(specs: seq<Spec>, sep: string, v: Variant, t: SpecTree)
    requires BuildTree(specs, sep, v) == Success(t)
    ensures |t.nodes| == DirectoryCount(specs, sep, v) + |specs|
    ensures var n := DirectoryCount(specs, sep, v);
      forall f | n <= f < |t.nodes| :: t.nodes[f].File? && t.nodes[f].data == specs[f - n]
  {
    var n := DirectoryCount(specs, sep, v);
    BuiltLength(specs, sep, v, t);
    forall f | n <= f < |t.nodes| ensures t.nodes[f].File? && t.nodes[f].data == specs[f - n] {
      FileAt(specs, sep, v, t, n, f);
    }
  }

  /** The returned arena holds the derived directories followed by the files of the specs. */
  lemma BuiltLayout(specs: seq<Spec>, sep: string, v: Variant, t: SpecTree)
    requires BuildTree(specs, sep, v) == Success(t)
    ensures Layout(t, specs, DirectoryCount(specs, sep, v))
  {
    BuiltDirectories(specs, sep, v, t);
    BuiltFiles(specs, sep, v, t);
  }

  /** The node of spec `j` is a child of the directory the spec is attached to. */
  lemma FileUnderParent(specs: seq<Spec>, sep: string, v: Variant, t: SpecTree, j: nat)
    requires BuildTree(specs, sep, v) == Success(t) && j < |specs|
    ensures var fp := FileParent(specs, sep, v, specs[j]);
      var f := DirectoryCount(specs, sep, v) + j;
      fp < |t.nodes| && t.nodes[fp].Directory? && f in t.nodes[fp].children && f < |t.nodes|
  {
    BuildFileParent(specs, sep, v, t, j);
  }

  /** Every child of a directory ranks below it. */
  lemma ChildRank(specs: seq<Spec>, sep: string, t: SpecTree, i: nat, c: NodeId)
    requires WellFormed(specs, sep) && BuildTree(specs, sep, Current) == Success(t)
    requires i < |t.nodes| && t.nodes[i].Directory? && c in t.nodes[i].children
    ensures c < |t.nodes| && TreeRank(t.nodes)[c] < TreeRank(t.nodes)[i]
  {
    var d := DeriveAll(specs, sep, Current);
    var n := DirectoryCount(specs, sep, Current);
    var m := MaxRelative(t.nodes);
    DerivedRootAlone(specs, sep);
    BuiltLayout(specs, sep, Current, t);
    assert c in ChildrenOf(t.nodes[i]);
    if c >= n {
      FileChildInArena(specs, sep, Current, t, i, c);
    } else {
      BuildChildDirectory(specs, sep, Current, t, i, c);
      BuildKeepsDirectory(specs, sep, Current, t, RootId);
      assert c != RootId;
      if i != RootId {
        BuildKeepsDirectory(specs, sep, Current, t, i);
        assert t.nodes[i].relative == d.nodes[i].relative;
        assert |t.nodes[c].relative| > |t.nodes[i].relative|;
      }
    }
  }

  /** A file child of a directory lies in the arena. */
  lemma FileChildInArena(specs: seq<Spec>, sep: string, v: Variant, t: SpecTree, i: nat, c: NodeId)
    requires BuildTree(specs, sep, v) == Success(t) && i < DirectoryCount(specs, sep, v) && i < |t.nodes|
    requires c in ChildrenOf(t.nodes[i]) && DirectoryCount(specs, sep, v) <= c
    ensures c < |t.nodes|
  {
    BuildChildFile(specs, sep, v, t, i, c);
  }

  /** The returned tree admits the rank `TreeRank`: no directory lies below itself. */
  lemma TreeRanked(specs: seq<Spec>, sep: string, t: SpecTree)
    requires WellFormed(specs, sep) && BuildTree(specs, sep, Current) == Success(t)
    ensures Ranked(t.nodes, TreeRank(t.nodes))
  {
    var rank := TreeRank(t.nodes);
    forall i | 0 <= i < |t.nodes| && t.nodes[i].Directory?
      ensures forall c | c in t.nodes[i].children :: c < |t.nodes| && rank[c] < rank[i]
    {
      forall c | c in t.nodes[i].children ensures c < |t.nodes| && rank[c] < rank[i] {
        ChildRank(specs, sep, t, i, c);
      }
    }
  }

  // ---------------------------------------------------------------------------
  // Everything hangs below the root.

  /** The files below a child of a directory are files below the directory. */
  lemma FilesBelowChild(nodes: seq<Node>, rank: seq<nat>, d: NodeId, c: NodeId)
    requires Ranked(nodes, rank) && d < |nodes| && nodes[d].Directory? && c in nodes[d].children
    ensures c < |nodes| && FilesBelow(nodes, rank, c) <= FilesBelow(nodes, rank, d)
  {
  }

  /** A child the wiring pass gave a directory is still its child in the returned tree. */
  lemma WiredChildKept(specs: seq<Spec>, sep: string, v: Variant, t: SpecTree, q: NodeId, c: NodeId)
    requires BuildTree(specs, sep, v) == Success(t) && q < DirectoryCount(specs, sep, v)
    requires c in ChildrenOf(WiredState(specs, sep, v).nodes[q])
    ensures q < |t.nodes| && t.nodes[q].Directory? && c in t.nodes[q].children
  {
    WiredDirectory(specs, sep, v, q);
    FinishKeeps(WiredState(specs, sep, v), specs, sep, v, t, q);
    BuildKeepsDirectory(specs, sep, v, t, q);
  }

  /**
   * One step up: the directory under `key`, when it is not the root, was wired
   * below the directory registered under its parent's path, which is "/" or a
   * shorter key.
   */
  lemma RegistryStep(specs: seq<Spec>, sep: string, t: SpecTree, key: string) returns (pk: string)
    requires WellFormed(specs, sep) && BuildTree(specs, sep, Current) == Success(t)
    requires key in DeriveAll(specs, sep, Current).registry && DeriveAll(specs, sep, Current).registry[key] != RootId
    ensures var d := DeriveAll(specs, sep, Current);
      && pk in d.registry && (pk == "/" || |pk| < |key|)
      && d.registry[pk] < |t.nodes| && t.nodes[d.registry[pk]].Directory?
      && d.registry[key] < |t.nodes| && d.registry[key] in t.nodes[d.registry[pk]].children
  {
    var d := DeriveAll(specs, sep, Current);
    DerivedRootAlone(specs, sep);
    var c := d.registry[key];
    ParentLink(d, sep, c);
    var pn := d.nodes[c].parent.value;
    pk := d.nodes[pn].relative;
    assert pk in d.registry;
    WiredAdoptsRegistered(d, Current, key);
    WiredChildKept(specs, sep, Current, t, d.registry[pk], c);
    BuiltLayout(specs, sep, Current, t);
    if pk != "/" {
      assert pn != RootId;
    }
  }

  /** The files below the directory registered under any key are files below the root. */
  lemma {:induction false} RegistryBelowRoot(specs: seq<Spec>, sep: string, t: SpecTree, rank: seq<nat>, key: string)
    requires WellFormed(specs, sep) && BuildTree(specs, sep, Current) == Success(t) && Ranked(t.nodes, rank)
    requires key in DeriveAll(specs, sep, Current).registry
    ensures var r := DeriveAll(specs, sep, Current).registry[key];
      r < |t.nodes| && RootId < |t.nodes| && FilesBelow(t.nodes, rank, r) <= FilesBelow(t.nodes, rank, RootId)
    decreases |key|
  {
    var d := DeriveAll(specs, sep, Current);
    DerivedRootAlone(specs, sep);
    BuiltLayout(specs, sep, Current, t);
    var r := d.registry[key];
    if r != RootId {
      var pk := RegistryStep(specs, sep, t, key);
      if pk != "/" {
        RegistryBelowRoot(specs, sep, t, rank, pk);
      }
      FilesBelowChild(t.nodes, rank, d.registry[pk], r);
    }
  }

  /** The directory a spec's file goes to is registered: under "/" for the root, else under the spec's path. */
  lemma FileParentBelowRoot(specs: seq<Spec>, sep: string, t: SpecTree, rank: seq<nat>, j: nat)
    requires WellFormed(specs, sep) && BuildTree(specs, sep, Current) == Success(t) && Ranked(t.nodes, rank) && j < |specs|
    ensures var fp := FileParent(specs, sep, Current, specs[j]);
      fp < |t.nodes| && RootId < |t.nodes| && FilesBelow(t.nodes, rank, fp) <= FilesBelow(t.nodes, rank, RootId)
  {
    var w := WiredState(specs, sep, Current);
    DerivedRootAlone(specs, sep);
    FinishSuccess(w, specs, sep, Current, t);
    assert AttachTarget(w.registry, specs[j], sep, Current).Success?;
    var key := if AttachesToRoot(specs[j], sep, Current) then "/" else AttachKey(specs[j], sep);
    RegistryBelowRoot(specs, sep, t, rank, key);
  }

  /** The file node of every processed spec is found below the root. */
  lemma FileBelowRoot(specs: seq<Spec>, sep: string, t: SpecTree, rank: seq<nat>, j: nat)
    requires WellFormed(specs, sep) && BuildTree(specs, sep, Current) == Success(t) && Ranked(t.nodes, rank) && j < |specs|
    ensures DirectoryCount(specs, sep, Current) + j < |t.nodes| && RootId < |t.nodes|
    ensures DirectoryCount(specs, sep, Current) + j in FilesBelow(t.nodes, rank, RootId)
  {
    var fp := FileParent(specs, sep, Current, specs[j]);
    var f := DirectoryCount(specs, sep, Current) + j;
    FileParentBelowRoot(specs, sep, t, rank, j);
    FileUnderParent(specs, sep, Current, t, j);
    BuiltFiles(specs, sep, Current, t);
    assert t.nodes[f].File?;
    FilesBelowChild(t.nodes, rank, fp, f);
  }

  /** The root of the tree built from well-formed specs, and the files found below it. */
  lemma RootFiles(specs: seq<Spec>, sep: string, t: SpecTree)
    requires WellFormed(specs, sep) && BuildTree(specs, sep, Current) == Success(t)
    ensures var n := DirectoryCount(specs, sep, Current);
      && t.root == RootId && |t.nodes| == n + |specs|
      && Ranked(t.nodes, TreeRank(t.nodes))
      && (forall f: NodeId :: f in FilesBelow(t.nodes, TreeRank(t.nodes), t.root) <==> n <= f < |t.nodes|)
  {
    var n := DirectoryCount(specs, sep, Current);
    var rank := TreeRank(t.nodes);
    DerivedRootAlone(specs, sep);
    FinishSuccess(WiredState(specs, sep, Current), specs, sep, Current, t);
    BuiltLayout(specs, sep, Current, t);
    TreeRanked(specs, sep, t);
    forall f: NodeId ensures f in FilesBelow(t.nodes, rank, t.root) <==> n <= f < |t.nodes| {
      if n <= f < |t.nodes| {
        FileBelowRoot(specs, sep, t, rank, f - n);
      }
    }
  }

  /**
   * Completeness for well-formed specs: src/tree.ts builds without throwing, the
   * returned root is the root node, no directory lies below itself, and the files
   * below the root are exactly the file nodes, one per processed spec, holding
   * that spec.
   */
  lemma Completeness(specs: seq<Spec>, sep: string)
    requires WellFormed(specs, sep)
    ensures BuildTree(specs, sep, Current).Success?
    ensures var t := BuildTree(specs, sep, Current).value;
      var n := DirectoryCount(specs, sep, Current);
      && t.root == RootId && |t.nodes| == n + |specs|
      && Ranked(t.nodes, TreeRank(t.nodes))
      && (forall f: NodeId :: f in FilesBelow(t.nodes, TreeRank(t.nodes), t.root) <==> n <= f < |t.nodes|)
    ensures var t := BuildTree(specs, sep, Current).value;
      var n := DirectoryCount(specs, sep, Current);
      forall f | n <= f < |t.nodes| :: t.nodes[f].File? && t.nodes[f].data == specs[f - n]
  {
    BuildSucceedsCurrent(specs, sep);
    var t := BuildTree(specs, sep, Current).value;
    var n := DirectoryCount(specs, sep, Current);
    RootFiles(specs, sep, t);
    BuiltLayout(specs, sep, Current, t);
  }
}
