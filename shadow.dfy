/**
 * Directories that src/tree.ts derives twice. The derivation loop of
 * deriveSpecTree makes a fresh directory node for every segment prefix of every
 * spec, even when the prefix is already registered, and the registry keeps only
 * the last one. An earlier node for the same path can still be reached by the
 * wiring walk (it is the parent of a registered node), so it ends up in the tree,
 * next to the registered one, and without children.
 */
module Shadow {
  import opened Wrappers
  import opened Paths
  import opened TreeModel
  import opened Derive
  import opened Wire
  import opened Attach
  import opened Build
  import opened Collect
  import opened Complete
  import opened SpecCases

  /**
   * A derived directory that no key maps to any more (a later spec derived a fresh
   * directory for the same path) gains no children: neither the wiring pass nor
   * the attach loop looks it up.
   */
  lemma ShadowedChildless(specs: seq<Spec>, sep: string, v: Variant, t: SpecTree, i: nat)
    requires BuildTree(specs, sep, v) == Success(t)
    requires RootId < i < DirectoryCount(specs, sep, v) && i !in DeriveAll(specs, sep, v).registry.Values
    ensures i < |t.nodes| && t.nodes[i].Directory? && t.nodes[i].children == {}
  {
    var d := DeriveAll(specs, sep, v);
    var w := WiredState(specs, sep, v);
    DerivedReady(specs, sep, v);
    BuildKeepsDirectory(specs, sep, v, t, i);
    ShapedChildless(d, sep, i);
    UnregisteredWireTarget(d, v, i);
    UnregisteredAttachTarget(w.registry, specs, sep, v, i);
    forall x | x in t.nodes[i].children ensures false {
      assert x in ChildrenOf(t.nodes[i]);
      BuildChildCases(specs, sep, v, t, i, x);
      if x in ChildrenOf(w.nodes[i]) {
        WiredChild(d, v, i, x);
      }
    }
  }

  /** The wiring walk adopts a node only into a directory that some key maps to. */
  lemma UnregisteredWireTarget(b: Builder, v: Variant, i: NodeId)
    requires Wirable(b) && i !in b.registry.Values
    ensures forall c: NodeId | c < |b.nodes| :: WireTarget(b, v, c) != Some(i)
  {
  }

  /** The attach loop puts a file only into the root or a directory that some key maps to. */
  lemma UnregisteredAttachTarget(registry: map<string, NodeId>, specs: seq<Spec>, sep: string, v: Variant, i: NodeId)
    requires i != RootId && i !in registry.Values
    ensures forall j | 0 <= j < |specs| :: AttachTarget(registry, specs[j], sep, v) != Success(i)
  {
  }

  // ---------------------------------------------------------------------------
  // Two specs `c/a/x` and `c/b/y`.

  /**
   * The derived state for `c/a/x` then `c/b/y`: `c` is derived once for each spec,
   * and the registry keeps the second.
   */
  function TwinState(c: string, a: string, b: string): Builder {
    Builder([RootNode,
             Directory(c, c, Some(0), {}, false),
             Directory(a, c + "/" + a, Some(1), {}, false),
             Directory(c, c, Some(0), {}, false),
             Directory(b, c + "/" + b, Some(3), {}, false)],
            map["/" := 0, c := 3, c + "/" + a := 2, c + "/" + b := 4])
  }

  /** How src/tree.ts reads a spec `c/a/leaf`: a nested spec that is neither skipped nor put at the root. */
  lemma TwinParts(s: Spec, c: string, a: string, leaf: string)
    requires Segment(c) && Segment(a) && Segment(leaf) && s.relative == c + "/" + a + "/" + leaf
    ensures SplitIntoParts(s.relative, "/") == Parts(leaf, c + "/" + a)
    ensures Segments(s, "/") == [c, a] && !SkipsDerivation(s, "/", Current)
    ensures !AttachesToRoot(s, "/", Current) && !SelfNamed(s, "/")
  {
    NestedParts(s, c, a, leaf);
    assert (c + "/" + a)[|c|] == '/';
    assert s.relative[|c|] == '/';
  }

  /** The directory names are proper segments: neither empty nor "/". */
  lemma TwinWellFormed(s1: Spec, s2: Spec, c: string, a: string, b: string, x: string, y: string)
    requires Segment(c) && Segment(a) && Segment(b) && Segment(x) && Segment(y)
    requires s1.relative == c + "/" + a + "/" + x && s2.relative == c + "/" + b + "/" + y
    ensures WellFormed([s1, s2], "/")
  {
    TwinParts(s1, c, a, x);
    TwinParts(s2, c, b, y);
    assert c != "/" && a != "/" && b != "/" by {
      assert c[0] != '/' && a[0] != '/' && b[0] != '/';
    }
    assert ProperSegments(s1, "/") && ProperSegments(s2, "/");
  }

  /** The four registry keys of the twin state are distinct. */
  lemma TwinKeys(c: string, a: string, b: string)
    requires Segment(c) && Segment(a) && Segment(b) && a != b
    ensures c != "/" && c != "" && c + "/" + a != "/" && c + "/" + b != "/"
    ensures c + "/" + a != c && c + "/" + b != c && c + "/" + a != c + "/" + b
  {
    assert c[0] != '/';
    assert (c + "/" + a)[|c| + 1..] == a && (c + "/" + b)[|c| + 1..] == b;
  }

  /** The state after the first spec `c/a/x`: `c` and `c/a`. */
  function TwinFirst(c: string, a: string): Builder {
    Builder([RootNode, Directory(c, c, Some(0), {}, false), Directory(a, c + "/" + a, Some(1), {}, false)],
            map["/" := 0, c := 1, c + "/" + a := 2])
  }

  lemma TwinFirstStep(s1: Spec, c: string, a: string, x: string)
    requires Segment(c) && Segment(a) && Segment(x) && s1.relative == c + "/" + a + "/" + x
    ensures DeriveAll([s1], "/", Current) == TwinFirst(c, a)
  {
    TwinParts(s1, c, a, x);
    TwoSegments(c, a);
    TwinKeys(c, a, a + "#");
    DeriveOneOnly(s1, "/", Current);
    var b0 := InitialBuilder();
    var b1 := AddDirectory(b0, [c, a], "/", 0);
    assert b1 == Builder([RootNode, Directory(c, c, Some(0), {}, false)], map["/" := 0, c := 1]);
    assert DeriveParts(b0, [c, a], "/", 2) == AddDirectory(b1, [c, a], "/", 1);
  }

  /** The state after the first directory of the second spec: a second node for `c`, now the registered one. */
  function TwinMiddle(c: string, a: string): Builder {
    Builder(TwinFirst(c, a).nodes + [Directory(c, c, Some(0), {}, false)], TwinFirst(c, a).registry[c := 3])
  }

  lemma TwinMiddleStep(c: string, a: string, b: string)
    requires Segment(c) && Segment(a) && Segment(b) && a != b
    ensures AddDirectory(TwinFirst(c, a), [c, b], "/", 0) == TwinMiddle(c, a)
  {
    TwinKeys(c, a, b);
    TwoSegments(c, b);
    assert "" !in TwinFirst(c, a).registry;
  }

  lemma TwinLastStep(c: string, a: string, b: string)
    requires Segment(c) && Segment(a) && Segment(b) && a != b
    ensures AddDirectory(TwinMiddle(c, a), [c, b], "/", 1) == TwinState(c, a, b)
  {
    TwinKeys(c, a, b);
    TwoSegments(c, b);
    var b3 := TwinMiddle(c, a);
    assert b3.registry[c] == 3;
    assert b3.registry[c + "/" + b := 4] == TwinState(c, a, b).registry;
    assert b3.nodes + [Directory(b, c + "/" + b, Some(3), {}, false)] == TwinState(c, a, b).nodes;
  }

  lemma TwinSecondStep(s2: Spec, c: string, a: string, b: string, y: string)
    requires Segment(c) && Segment(a) && Segment(b) && Segment(y) && a != b && s2.relative == c + "/" + b + "/" + y
    ensures DeriveOne(TwinFirst(c, a), s2, "/", Current) == TwinState(c, a, b)
  {
    TwinParts(s2, c, b, y);
    TwinMiddleStep(c, a, b);
    TwinLastStep(c, a, b);
    assert DeriveParts(TwinFirst(c, a), [c, b], "/", 2)
        == AddDirectory(AddDirectory(TwinFirst(c, a), [c, b], "/", 0), [c, b], "/", 1);
  }

  /** The derivation over `c/a/x` and `c/b/y`. */
  lemma TwinDerivation(s1: Spec, s2: Spec, c: string, a: string, b: string, x: string, y: string)
    requires Segment(c) && Segment(a) && Segment(b) && Segment(x) && Segment(y) && a != b
    requires s1.relative == c + "/" + a + "/" + x && s2.relative == c + "/" + b + "/" + y
    ensures DeriveAll([s1, s2], "/", Current) == TwinState(c, a, b)
  {
    assert [s1, s2][..1] == [s1];
    TwinFirstStep(s1, c, a, x);
    TwinSecondStep(s2, c, a, b, y);
  }

  /** In the twin state `c` (node 1) is reached by the walk from `c/a`, and both `c` nodes are wired under the root. */
  lemma TwinWiring(c: string, a: string, b: string)
    requires Segment(c) && Segment(a) && Segment(b) && a != b
    ensures Wirable(TwinState(c, a, b))
    ensures 1 in Wired(TwinState(c, a, b), Current).nodes[0].children
    ensures 3 in Wired(TwinState(c, a, b), Current).nodes[0].children
    ensures 1 !in TwinState(c, a, b).registry.Values
  {
    var d := TwinState(c, a, b);
    TwinKeys(c, a, b);
    Slashless(c);
    Slashless(a);
    Slashless(b);
    assert Shaped(d, "/") by {
      assert DirectoryShaped(d.nodes, 1, "/");
      assert DirectoryShaped(d.nodes, 2, "/");
      assert DirectoryShaped(d.nodes, 3, "/");
      assert DirectoryShaped(d.nodes, 4, "/");
    }
    ShapedWirable(d, "/");
    assert d.registry[c + "/" + a] == 2;
    assert 2 in d.registry.Values;
    assert 1 in Chain(d.nodes, 2);
    assert 1 in Reached(d);
    assert WireTarget(d, Current, 1) == Some(0);
    WiredAdoptsRegistered(d, Current, c);
  }

  /**
   * For the specs `c/a/x` and `c/b/y`, src/tree.ts returns a tree whose root has
   * two different directory children with the same path `c`; the first of them
   * has no children and no file below it.
   */
  lemma DuplicateDirectories(s1: Spec, s2: Spec, c: string, a: string, b: string, x: string, y: string)
    requires Segment(c) && Segment(a) && Segment(b) && Segment(x) && Segment(y) && a != b
    requires s1.relative == c + "/" + a + "/" + x && s2.relative == c + "/" + b + "/" + y
    ensures BuildTree([s1, s2], "/", Current).Success?
    ensures var t := BuildTree([s1, s2], "/", Current).value;
      && t.root == RootId && 3 < |t.nodes| && Ranked(t.nodes, TreeRank(t.nodes))
      && t.nodes[RootId].Directory? && t.nodes[1].Directory? && t.nodes[3].Directory?
      && t.nodes[1].relative == c && t.nodes[3].relative == c
      && 1 in t.nodes[RootId].children && 3 in t.nodes[RootId].children
      && t.nodes[1].children == {} && FilesBelow(t.nodes, TreeRank(t.nodes), 1) == {}
  {
    var specs := [s1, s2];
    TwinDerivation(s1, s2, c, a, b, x, y);
    TwinWellFormed(s1, s2, c, a, b, x, y);
    Completeness(specs, "/");
    var t := BuildTree(specs, "/", Current).value;
    TwinWiring(c, a, b);
    assert WiredState(specs, "/", Current) == Wired(TwinState(c, a, b), Current);
    WiredChildKept(specs, "/", Current, t, 0, 1);
    WiredChildKept(specs, "/", Current, t, 0, 3);
    BuildKeepsDirectory(specs, "/", Current, t, 1);
    BuildKeepsDirectory(specs, "/", Current, t, 3);
    ShadowedChildless(specs, "/", Current, t, 1);
  }
}
