/**
 * The three `describe("deriveSpecTree")` cases of src/tree.spec.ts, stated as
 * lemmas about the earlier copy of the builder with the default separator "/".
 * Each case is worked through its phases: the directories derived, the children
 * the wiring pass adds, and the tree after the files are attached.
 */
module SpecCases {
  import opened Wrappers
  import opened Paths
  import opened TreeModel
  import opened Specs
  import opened Derive
  import opened Wire
  import opened Attach
  import opened Build

  // ---------------------------------------------------------------------------
  // Steps shared by the cases.

  /** A string without the character '/' holds no separator "/". */
  lemma Slashless(s: string)
    requires '/' !in s
    ensures !Contains(s, "/")
  {
    ContainsChar(s, '/');
    assert ['/'] == "/";
  }

  /** `"a/b".split("/")` for separator-free `a` and `b`. */
  lemma TwoSegments(a: string, b: string)
    requires '/' !in a && '/' !in b
    ensures Split(a + "/" + b, "/") == [a, b]
    ensures Prefix([a, b], "/", 0) == "" && Prefix([a, b], "/", 1) == a && Prefix([a, b], "/", 2) == a + "/" + b
  {
    Slashless(a);
    Slashless(b);
    var parts := [a, b];
    assert parts[..1] == [a] && parts[..2] == parts && parts[..0] == [];
    assert Join(parts, "/") == a + "/" + b;
    SplitJoin(parts, "/");
  }

  /** The wiring pass adds to each node exactly the reached nodes whose parent key names it. */
  lemma WiredNode(b: Builder, v: Variant, i: nat)
    requires Wirable(b) && i < |b.nodes|
    ensures Wired(b, v).nodes[i] == b.nodes[i].(children := b.nodes[i].children + Adopted(b, v, Reached(b), i))
  {
  }

  /** After a successful finish, a directory of `w` has gained exactly the files attached to it. */
  lemma FinishedDirectory(w: Builder, specs: seq<Spec>, sep: string, v: Variant, t: SpecTree, i: nat)
    requires AttachReady(w) && Finish(w, specs, sep, v) == Success(t) && i < |w.nodes| && w.nodes[i].Directory?
    ensures i < |t.nodes|
    ensures t.nodes[i] == w.nodes[i].(children := w.nodes[i].children + AttachedTo(w.registry, specs, sep, v, |w.nodes|, i))
  {
    FinishKeeps(w, specs, sep, v, t, i);
  }

  /** No file goes to a directory no spec targets. */
  lemma NothingAttached(registry: map<string, NodeId>, specs: seq<Spec>, sep: string, v: Variant, base: nat, t: NodeId)
    requires forall j | 0 <= j < |specs| :: AttachTarget(registry, specs[j], sep, v) != Success(t)
    ensures AttachedTo(registry, specs, sep, v, base, t) == {}
  {
    forall x | x in AttachedTo(registry, specs, sep, v, base, t) ensures false {
      AttachedToMember(registry, specs, sep, v, base, t, x);
    }
  }

  /** The file of a lone spec goes to the directory the spec targets. */
  lemma OneAttached(registry: map<string, NodeId>, s: Spec, sep: string, v: Variant, base: nat, t: NodeId)
    requires AttachTarget(registry, s, sep, v) == Success(t)
    ensures AttachedTo(registry, [s], sep, v, base, t) == {base}
  {
    AttachedToHas(registry, [s], sep, v, base, t, 0);
    forall x | x in AttachedTo(registry, [s], sep, v, base, t) ensures x == base {
      AttachedToMember(registry, [s], sep, v, base, t, x);
    }
  }

  /** The derivation loop over three specs, one iteration at a time. */
  lemma DeriveThree(s1: Spec, s2: Spec, s3: Spec, sep: string, v: Variant)
    ensures DeriveAll([s1, s2, s3], sep, v) ==
      DeriveOne(DeriveOne(DeriveOne(InitialBuilder(), s1, sep, v), s2, sep, v), s3, sep, v)
  {
    assert [s1, s2, s3][..2] == [s1, s2] && [s1, s2][..1] == [s1];
    DeriveOneOnly(s1, sep, v);
    assert DeriveAll([s1, s2], sep, v) == DeriveOne(DeriveAll([s1], sep, v), s2, sep, v);
  }

  /** The derivation loop over one spec is that spec's iteration. */
  lemma DeriveOneOnly(s: Spec, sep: string, v: Variant)
    ensures DeriveAll([s], sep, v) == DeriveOne(InitialBuilder(), s, sep, v)
  {
    assert [s][..0] == [];
  }

  /** Two four-node arenas that agree node by node are equal. */
  lemma FourNodes(t: seq<Node>, e: seq<Node>)
    requires |t| == 4 && |e| == 4 && t[0] == e[0] && t[1] == e[1] && t[2] == e[2] && t[3] == e[3]
    ensures t == e
  {
  }

  /** Two six-node arenas that agree node by node are equal. */
  lemma SixNodes(t: seq<Node>, e: seq<Node>)
    requires |t| == 6 && |e| == 6
    requires t[0] == e[0] && t[1] == e[1] && t[2] == e[2] && t[3] == e[3] && t[4] == e[4] && t[5] == e[5]
    ensures t == e
  {
  }

  /** Two nine-node arenas that agree node by node are equal. */
  lemma NineNodes(t: seq<Node>, e: seq<Node>)
    requires |t| == 9 && |e| == 9
    requires t[0] == e[0] && t[1] == e[1] && t[2] == e[2] && t[3] == e[3] && t[4] == e[4] && t[5] == e[5]
    requires t[6] == e[6] && t[7] == e[7] && t[8] == e[8]
    ensures t == e
  {
  }

  /** The files three specs bound for three different directories give to directory `t`. */
  lemma ThreeAttached(registry: map<string, NodeId>, s1: Spec, s2: Spec, s3: Spec, sep: string, v: Variant, base: nat,
                      t1: NodeId, t2: NodeId, t3: NodeId, t: NodeId)
    requires AttachTarget(registry, s1, sep, v) == Success(t1) && AttachTarget(registry, s2, sep, v) == Success(t2)
    requires AttachTarget(registry, s3, sep, v) == Success(t3)
    requires t1 != t2 && t1 != t3 && t2 != t3
    ensures t == t1 ==> AttachedTo(registry, [s1, s2, s3], sep, v, base, t) == {base}
    ensures t == t2 ==> AttachedTo(registry, [s1, s2, s3], sep, v, base, t) == {base + 1}
    ensures t == t3 ==> AttachedTo(registry, [s1, s2, s3], sep, v, base, t) == {base + 2}
    ensures t != t1 && t != t2 && t != t3 ==> AttachedTo(registry, [s1, s2, s3], sep, v, base, t) == {}
  {
    AttachedToSnoc(registry, [], s1, sep, v, base, t);
    AttachedToSnoc(registry, [s1], s2, sep, v, base, t);
    AttachedToSnoc(registry, [s1, s2], s3, sep, v, base, t);
    assert [] + [s1] == [s1] && [s1] + [s2] == [s1, s2] && [s1, s2] + [s3] == [s1, s2, s3];
    assert AttachedTo(registry, [], sep, v, base, t) == {};
    var a1 := AttachedTo(registry, [s1], sep, v, base, t);
    var a2 := AttachedTo(registry, [s1, s2], sep, v, base, t);
    if t == t1 {
      assert a1 == {base} && a2 == a1;
    } else if t == t2 {
      assert a1 == {} && a2 == {base + 1};
    } else {
      assert a1 == {} && a2 == {};
    }
  }

  /** `nodes` after the files `base`, `base + 1` and `base + 2` are added to the directories `t1`, `t2` and `t3`. */
  function AddThreeFiles(nodes: seq<Node>, t1: NodeId, t2: NodeId, t3: NodeId, base: nat): (r: seq<Node>)
    requires t1 < |nodes| && t2 < |nodes| && t3 < |nodes|
    requires t1 != t2 && t1 != t3 && t2 != t3
    ensures |r| == |nodes|
  {
    nodes[t1 := AddChild(nodes[t1], base)][t2 := AddChild(nodes[t2], base + 1)][t3 := AddChild(nodes[t3], base + 2)]
  }

  /** Only the three directories change, each gaining its one file. */
  lemma AddThreeFilesAt(nodes: seq<Node>, t1: NodeId, t2: NodeId, t3: NodeId, base: nat, i: nat)
    requires t1 < |nodes| && t2 < |nodes| && t3 < |nodes| && i < |nodes|
    requires t1 != t2 && t1 != t3 && t2 != t3
    ensures AddThreeFiles(nodes, t1, t2, t3, base)[i] ==
      (if i == t1 then AddChild(nodes[i], base) else if i == t2 then AddChild(nodes[i], base + 1)
       else if i == t3 then AddChild(nodes[i], base + 2) else nodes[i])
  {
  }

  /**
   * Attaching three specs bound for three different directories: each directory
   * gains its one file, the three file nodes follow the arena, and the root is
   * the node under "/".
   */
  lemma FinishThree(w: Builder, s1: Spec, s2: Spec, s3: Spec, sep: string, v: Variant, t1: NodeId, t2: NodeId, t3: NodeId)
    requires AttachReady(w) && "/" in w.registry
    requires AttachTarget(w.registry, s1, sep, v) == Success(t1) && AttachTarget(w.registry, s2, sep, v) == Success(t2)
    requires AttachTarget(w.registry, s3, sep, v) == Success(t3)
    requires t1 != t2 && t1 != t3 && t2 != t3
    requires t1 < |w.nodes| && t2 < |w.nodes| && t3 < |w.nodes|
    requires w.nodes[t1].Directory? && w.nodes[t2].Directory? && w.nodes[t3].Directory?
    ensures Finish(w, [s1, s2, s3], sep, v) ==
      Success(SpecTree(AddThreeFiles(w.nodes, t1, t2, t3, |w.nodes|) +
                         [File(SplitIntoParts(s1.relative, sep).name, s1, t1),
                          File(SplitIntoParts(s2.relative, sep).name, s2, t2),
                          File(SplitIntoParts(s3.relative, sep).name, s3, t3)],
                       w.registry["/"], w.registry))
  {
    var specs := [s1, s2, s3];
    var base := |w.nodes|;
    FinishThreeSucceeds(w, s1, s2, s3, sep, v, t1, t2, t3);
    var t := Finish(w, specs, sep, v).value;
    FinishSuccess(w, specs, sep, v, t);
    var r := AddThreeFiles(w.nodes, t1, t2, t3, base);
    assert |r| == base && |t.nodes| == base + 3;
    assert forall i | 0 <= i < |r| :: t.nodes[i] == r[i] by {
      forall i | 0 <= i < |r| ensures t.nodes[i] == r[i] {
        FinishThreeKept(w, s1, s2, s3, sep, v, t1, t2, t3, t, i);
      }
    }
    assert specs[0] == s1 && specs[1] == s2 && specs[2] == s3;
    FinishFileIs(w, specs, sep, v, t, 0, t1);
    FinishFileIs(w, specs, sep, v, t, 1, t2);
    FinishFileIs(w, specs, sep, v, t, 2, t3);
    ArenaThenThree(t.nodes, r, File(SplitIntoParts(s1.relative, sep).name, s1, t1),
                   File(SplitIntoParts(s2.relative, sep).name, s2, t2), File(SplitIntoParts(s3.relative, sep).name, s3, t3));
  }

  /** The attach loop over three specs that all have a directory does not throw. */
  lemma FinishThreeSucceeds(w: Builder, s1: Spec, s2: Spec, s3: Spec, sep: string, v: Variant, t1: NodeId, t2: NodeId, t3: NodeId)
    requires AttachReady(w) && "/" in w.registry
    requires AttachTarget(w.registry, s1, sep, v) == Success(t1) && AttachTarget(w.registry, s2, sep, v) == Success(t2)
    requires AttachTarget(w.registry, s3, sep, v) == Success(t3)
    ensures Finish(w, [s1, s2, s3], sep, v).Success?
  {
    var specs := [s1, s2, s3];
    forall j | 0 <= j < 3 ensures AttachTarget(w.registry, specs[j], sep, v).Success? {
      if j == 0 { assert specs[j] == s1; } else if j == 1 { assert specs[j] == s2; } else { assert specs[j] == s3; }
    }
    FinishSucceeds(w, specs, sep, v);
  }

  /** The file node of spec `j`, which goes to directory `p`, follows the arena at offset `j`. */
  lemma FinishFileIs(w: Builder, specs: seq<Spec>, sep: string, v: Variant, t: SpecTree, j: nat, p: NodeId)
    requires AttachReady(w) && Finish(w, specs, sep, v) == Success(t)
    requires j < |specs| && AttachTarget(w.registry, specs[j], sep, v) == Success(p)
    ensures |w.nodes| + j < |t.nodes| && t.nodes[|w.nodes| + j] == File(SplitIntoParts(specs[j].relative, sep).name, specs[j], p)
  {
    FinishFile(w, specs, sep, v, t, |w.nodes|, j);
  }

  /** An arena that agrees with `r` and then holds three more nodes is `r` followed by them. */
  lemma ArenaThenThree(nodes: seq<Node>, r: seq<Node>, f1: Node, f2: Node, f3: Node)
    requires |nodes| == |r| + 3 && forall i | 0 <= i < |r| :: nodes[i] == r[i]
    requires nodes[|r|] == f1 && nodes[|r| + 1] == f2 && nodes[|r| + 2] == f3
    ensures nodes == r + [f1, f2, f3]
  {
  }

  /** A node of the arena after the three files are attached. */
  lemma FinishThreeKept(w: Builder, s1: Spec, s2: Spec, s3: Spec, sep: string, v: Variant, t1: NodeId, t2: NodeId, t3: NodeId,
                        t: SpecTree, i: nat)
    requires AttachReady(w) && Finish(w, [s1, s2, s3], sep, v) == Success(t)
    requires AttachTarget(w.registry, s1, sep, v) == Success(t1) && AttachTarget(w.registry, s2, sep, v) == Success(t2)
    requires AttachTarget(w.registry, s3, sep, v) == Success(t3)
    requires t1 != t2 && t1 != t3 && t2 != t3
    requires t1 < |w.nodes| && t2 < |w.nodes| && t3 < |w.nodes|
    requires w.nodes[t1].Directory? && w.nodes[t2].Directory? && w.nodes[t3].Directory?
    requires i < |w.nodes|
    ensures i < |t.nodes| && t.nodes[i] == AddThreeFiles(w.nodes, t1, t2, t3, |w.nodes|)[i]
  {
    if w.nodes[i].Directory? {
      FinishThreeDirectory(w, s1, s2, s3, sep, v, t1, t2, t3, t, i);
    } else {
      FinishKeeps(w, [s1, s2, s3], sep, v, t, i);
      AddThreeFilesAt(w.nodes, t1, t2, t3, |w.nodes|, i);
      assert AddThreeFiles(w.nodes, t1, t2, t3, |w.nodes|)[i] == w.nodes[i];
    }
  }

  /** A directory of the arena after the three files are attached. */
  lemma FinishThreeDirectory(w: Builder, s1: Spec, s2: Spec, s3: Spec, sep: string, v: Variant,
                             t1: NodeId, t2: NodeId, t3: NodeId, t: SpecTree, i: nat)
    requires AttachReady(w) && Finish(w, [s1, s2, s3], sep, v) == Success(t)
    requires AttachTarget(w.registry, s1, sep, v) == Success(t1) && AttachTarget(w.registry, s2, sep, v) == Success(t2)
    requires AttachTarget(w.registry, s3, sep, v) == Success(t3)
    requires t1 != t2 && t1 != t3 && t2 != t3
    requires t1 < |w.nodes| && t2 < |w.nodes| && t3 < |w.nodes|
    requires i < |w.nodes| && w.nodes[i].Directory?
    ensures i < |t.nodes| && t.nodes[i] == AddThreeFiles(w.nodes, t1, t2, t3, |w.nodes|)[i]
  {
    var base := |w.nodes|;
    var n := w.nodes[i];
    var r := AddThreeFiles(w.nodes, t1, t2, t3, base);
    FinishedDirectory(w, [s1, s2, s3], sep, v, t, i);
    ThreeAttached(w.registry, s1, s2, s3, sep, v, base, t1, t2, t3, i);
    AddThreeFilesAt(w.nodes, t1, t2, t3, base, i);
    if i == t1 {
      assert r[i] == AddChild(n, base) && t.nodes[i] == n.(children := n.children + {base});
    } else if i == t2 {
      assert r[i] == AddChild(n, base + 1) && t.nodes[i] == n.(children := n.children + {base + 1});
    } else if i == t3 {
      assert r[i] == AddChild(n, base + 2) && t.nodes[i] == n.(children := n.children + {base + 2});
    } else {
      assert r[i] == n && t.nodes[i] == n.(children := n.children + {});
      assert n.children + {} == n.children;
    }
  }

  // ---------------------------------------------------------------------------
  // "handles a nested spec": one spec `a/b/leaf`.

  /** The derived state for one spec `a/b/leaf`: the root, then `a` and `a/b`, each under the one before. */
  function NestedState(a: string, b: string): Builder {
    Builder([RootNode, Directory(a, a, Some(0), {}, false), Directory(b, a + "/" + b, Some(1), {}, false)],
            map["/" := 0, a := 1, a + "/" + b := 2])
  }

  lemma NestedParts(s: Spec, a: string, b: string, leaf: string)
    requires Segment(a) && Segment(b) && Segment(leaf) && s.relative == a + "/" + b + "/" + leaf
    ensures SplitIntoParts(s.relative, "/") == Parts(leaf, a + "/" + b)
    ensures Segments(s, "/") == [a, b] && !SkipsDerivation(s, "/", Early)
    ensures AttachKey(s, "/") == a + "/" + b && !AttachesToRoot(s, "/", Early)
  {
    Slashless(leaf);
    assert s.relative == (a + "/" + b) + "/" + leaf;
    SplitIntoPartsOfJoin(a + "/" + b, "/", leaf);
    TwoSegments(a, b);
  }

  lemma NestedDerivation(s: Spec, a: string, b: string, leaf: string)
    requires Segment(a) && Segment(b) && Segment(leaf) && s.relative == a + "/" + b + "/" + leaf
    ensures DeriveAll([s], "/", Early) == NestedState(a, b)
  {
    NestedParts(s, a, b, leaf);
    TwoSegments(a, b);
    var segs := [a, b];
    DeriveOneOnly(s, "/", Early);
    var b1 := AddDirectory(InitialBuilder(), segs, "/", 0);
    assert a != "/" by { assert a[0] != '/'; }
    assert b1 == Builder([RootNode, Directory(a, a, Some(0), {}, false)], map["/" := 0, a := 1]);
    assert DeriveParts(InitialBuilder(), segs, "/", 2) == AddDirectory(b1, segs, "/", 1);
  }

  lemma NestedReached(a: string, b: string)
    requires Segment(a) && Segment(b)
    ensures Wirable(NestedState(a, b)) && Reached(NestedState(a, b)) == {0, 1, 2}
  {
    var d := NestedState(a, b);
    assert d.registry[a + "/" + b] == 2;
    assert 2 in d.registry.Values;
    assert Chain(d.nodes, 2) == {0, 1, 2} by {
      assert Chain(d.nodes, 0) == {0};
      assert Chain(d.nodes, 1) == {1} + Chain(d.nodes, 0);
    }
  }

  /** The wiring pass makes `a` the root's child and `a/b` the child of `a`. */
  lemma NestedWiring(a: string, b: string)
    requires Segment(a) && Segment(b)
    ensures Wirable(NestedState(a, b))
    ensures Wired(NestedState(a, b), Early).nodes ==
      [RootNode.(children := {1}), Directory(a, a, Some(0), {2}, false), Directory(b, a + "/" + b, Some(1), {}, false)]
  {
    var d := NestedState(a, b);
    NestedReached(a, b);
    assert a != "/" by { assert a[0] != '/'; }
    assert WireTarget(d, Early, 0) == None;
    assert WireTarget(d, Early, 1) == Some(0);
    assert WireTarget(d, Early, 2) == Some(1);
    assert Adopted(d, Early, {0, 1, 2}, 0) == {1};
    assert Adopted(d, Early, {0, 1, 2}, 1) == {2};
    assert Adopted(d, Early, {0, 1, 2}, 2) == {};
    var w := Wired(d, Early).nodes;
    WiredNode(d, Early, 0);
    assert w[0] == RootNode.(children := {1});
    WiredNode(d, Early, 1);
    assert w[1] == Directory(a, a, Some(0), {2}, false);
    WiredNode(d, Early, 2);
    assert w[2] == Directory(b, a + "/" + b, Some(1), {}, false);
  }

  /** The wired state for one spec `a/b/leaf`. */
  function NestedWired(a: string, b: string): Builder {
    Builder([RootNode.(children := {1}), Directory(a, a, Some(0), {2}, false), Directory(b, a + "/" + b, Some(1), {}, false)],
            NestedState(a, b).registry)
  }

  /** The tree for one spec `a/b/leaf`: `a` under the root, `a/b` under `a`, and the file under `a/b`. */
  function NestedTreeOf(s: Spec, a: string, b: string, leaf: string): SpecTree {
    SpecTree([RootNode.(children := {1}),
              Directory(a, a, Some(0), {2}, false),
              Directory(b, a + "/" + b, Some(1), {3}, false),
              File(leaf, s, 2)],
             RootId, NestedState(a, b).registry)
  }

  /** In the wired state, the one spec `a/b/leaf` goes to `a/b`, and nothing goes to the root or `a`. */
  lemma NestedTargets(s: Spec, a: string, b: string, leaf: string)
    requires Segment(a) && Segment(b) && Segment(leaf) && s.relative == a + "/" + b + "/" + leaf
    ensures AttachReady(NestedWired(a, b)) && "/" in NestedWired(a, b).registry
    ensures AttachTarget(NestedWired(a, b).registry, s, "/", Early) == Success(2)
    ensures AttachedTo(NestedWired(a, b).registry, [s], "/", Early, 3, 0) == {}
    ensures AttachedTo(NestedWired(a, b).registry, [s], "/", Early, 3, 1) == {}
    ensures AttachedTo(NestedWired(a, b).registry, [s], "/", Early, 3, 2) == {3}
  {
    var r := NestedWired(a, b).registry;
    NestedParts(s, a, b, leaf);
    assert AttachTarget(r, s, "/", Early) == Success(2);
    NothingAttached(r, [s], "/", Early, 3, 0);
    NothingAttached(r, [s], "/", Early, 3, 1);
    OneAttached(r, s, "/", Early, 3, 2);
  }

  /** Attaching the one file of `a/b/leaf` to the wired state. */
  lemma NestedFinish(s: Spec, a: string, b: string, leaf: string)
    requires Segment(a) && Segment(b) && Segment(leaf) && s.relative == a + "/" + b + "/" + leaf
    ensures AttachReady(NestedWired(a, b))
    ensures Finish(NestedWired(a, b), [s], "/", Early) == Success(NestedTreeOf(s, a, b, leaf))
  {
    var specs := [s];
    var w := NestedWired(a, b);
    NestedTargets(s, a, b, leaf);
    NestedParts(s, a, b, leaf);
    FinishSucceeds(w, specs, "/", Early);
    var t := Finish(w, specs, "/", Early).value;
    FinishSuccess(w, specs, "/", Early, t);
    var e := NestedTreeOf(s, a, b, leaf).nodes;
    assert t.nodes[0] == e[0] by {
      FinishedDirectory(w, specs, "/", Early, t, 0);
      assert w.nodes[0].children + {} == {1};
    }
    assert t.nodes[1] == e[1] by {
      FinishedDirectory(w, specs, "/", Early, t, 1);
      assert w.nodes[1].children + {} == {2};
    }
    assert t.nodes[2] == e[2] by {
      FinishedDirectory(w, specs, "/", Early, t, 2);
      assert w.nodes[2].children + {3} == {3};
    }
    assert t.nodes[3] == e[3] by {
      FinishFile(w, specs, "/", Early, t, 3, 0);
    }
    FourNodes(t.nodes, e);
  }

  /** The tree built for one spec `a/b/leaf`. */
  lemma NestedTree(s: Spec, a: string, b: string, leaf: string)
    requires Segment(a) && Segment(b) && Segment(leaf) && s.relative == a + "/" + b + "/" + leaf
    ensures BuildTree([s], "/", Early) == Success(NestedTreeOf(s, a, b, leaf))
  {
    NestedDerivation(s, a, b, leaf);
    NestedWiring(a, b);
    assert WiredState([s], "/", Early) == NestedWired(a, b);
    NestedFinish(s, a, b, leaf);
  }

  /**
   * "handles a nested spec": the root "/" (a directory without parent, not
   * collapsed) has the one child cypress, which has the one child cypress/e2e,
   * which holds the file foo.cy.ts whose parent is cypress/e2e.
   */
  lemma NestedSpecTree(s: Spec)
    requires s == CreateSpec("cypress/e2e", "foo")
    ensures BuildTree([s], "/", Early) == Success(NestedTreeOf(s, "cypress", "e2e", "foo.cy.ts"))
  {
    assert s.relative == "cypress" + "/" + "e2e" + "/" + "foo.cy.ts";
    NestedTree(s, "cypress", "e2e", "foo.cy.ts");
  }

  // ---------------------------------------------------------------------------
  // "handles several nested specs": `a/l1`, `a/b/l2` and `a/b/c/l3`, in that order.

  /** `"a/b/c".split("/")` for separator-free `a`, `b` and `c`. */
  lemma ThreeSegments(a: string, b: string, c: string)
    requires '/' !in a && '/' !in b && '/' !in c
    ensures Split(a + "/" + b + "/" + c, "/") == [a, b, c]
    ensures Prefix([a, b, c], "/", 0) == "" && Prefix([a, b, c], "/", 1) == a
    ensures Prefix([a, b, c], "/", 2) == a + "/" + b && Prefix([a, b, c], "/", 3) == a + "/" + b + "/" + c
  {
    Slashless(a);
    Slashless(b);
    Slashless(c);
    var parts := [a, b, c];
    assert parts[..1] == [a] && parts[..2] == [a, b] && parts[..3] == parts && parts[..0] == [];
    JoinCons(a, [b], "/");
    assert [a] + [b] == [a, b];
    JoinCons(b, [c], "/");
    assert [b] + [c] == [b, c];
    JoinCons(a, [b, c], "/");
    assert [a] + [b, c] == parts;
    assert Join(parts, "/") == a + "/" + b + "/" + c;
    SplitJoin(parts, "/");
  }

  /** The first spec `a/l1`: its one segment is skipped by the derivation, and its file goes to the key `a`. */
  lemma FirstParts(s: Spec, a: string, leaf: string)
    requires Segment(a) && Segment(leaf) && s.relative == a + "/" + leaf
    ensures SplitIntoParts(s.relative, "/") == Parts(leaf, a)
    ensures SkipsDerivation(s, "/", Early)
    ensures AttachKey(s, "/") == a && !AttachesToRoot(s, "/", Early)
  {
    Slashless(leaf);
    Slashless(a);
    SplitIntoPartsOfJoin(a, "/", leaf);
    SplitSingle(a, "/");
  }

  /** The third spec `a/b/c/l3`: three segments, and its file goes to the key `a/b/c`. */
  lemma ThirdParts(s: Spec, a: string, b: string, c: string, leaf: string)
    requires Segment(a) && Segment(b) && Segment(c) && Segment(leaf)
    requires s.relative == a + "/" + b + "/" + c + "/" + leaf
    ensures SplitIntoParts(s.relative, "/") == Parts(leaf, a + "/" + b + "/" + c)
    ensures Segments(s, "/") == [a, b, c] && !SkipsDerivation(s, "/", Early)
    ensures AttachKey(s, "/") == a + "/" + b + "/" + c && !AttachesToRoot(s, "/", Early)
  {
    Slashless(leaf);
    SplitIntoPartsOfJoin(a + "/" + b + "/" + c, "/", leaf);
    ThreeSegments(a, b, c);
  }

  /**
   * The derived state for the three specs. The first is skipped; the second
   * derives `a` (node 1) and `a/b` (node 2); the third derives FRESH nodes for
   * `a` (3), `a/b` (4) and `a/b/c` (5), which take over the registry keys.
   */
  function SeveralState(a: string, b: string, c: string): Builder {
    Builder([RootNode,
              Directory(a, a, Some(0), {}, false),
              Directory(b, a + "/" + b, Some(1), {}, false),
              Directory(a, a, Some(0), {}, false),
              Directory(b, a + "/" + b, Some(3), {}, false),
              Directory(c, a + "/" + b + "/" + c, Some(4), {}, false)],
            map["/" := 0, a := 3, a + "/" + b := 4, a + "/" + b + "/" + c := 5])
  }

  /** The third spec's segments, derived on top of the state the second spec left. */
  lemma SeveralThird(a: string, b: string, c: string)
    requires Segment(a) && Segment(b) && Segment(c)
    ensures DeriveParts(NestedState(a, b), [a, b, c], "/", 3) == SeveralState(a, b, c)
  {
    ThreeSegments(a, b, c);
    var segs := [a, b, c];
    var b0 := NestedState(a, b);
    assert "" !in b0.registry by { assert |a + "/" + b| > 0; }
    var b1 := AddDirectory(b0, segs, "/", 0);
    assert b1 == Builder(b0.nodes + [Directory(a, a, Some(0), {}, false)], b0.registry[a := 3]);
    var b2 := AddDirectory(b1, segs, "/", 1);
    assert b2 == Builder(b1.nodes + [Directory(b, a + "/" + b, Some(3), {}, false)], b1.registry[a + "/" + b := 4]);
    var b3 := AddDirectory(b2, segs, "/", 2);
    assert b3 == Builder(b2.nodes + [Directory(c, a + "/" + b + "/" + c, Some(4), {}, false)],
                         b2.registry[a + "/" + b + "/" + c := 5]);
    assert b3.registry == SeveralState(a, b, c).registry;
    assert b3.nodes == SeveralState(a, b, c).nodes;
  }

  lemma SeveralDerivation(s1: Spec, s2: Spec, s3: Spec, a: string, b: string, c: string, l1: string, l2: string, l3: string)
    requires Segment(a) && Segment(b) && Segment(c) && Segment(l1) && Segment(l2) && Segment(l3)
    requires s1.relative == a + "/" + l1 && s2.relative == a + "/" + b + "/" + l2
    requires s3.relative == a + "/" + b + "/" + c + "/" + l3
    ensures DeriveAll([s1, s2, s3], "/", Early) == SeveralState(a, b, c)
  {
    FirstParts(s1, a, l1);
    NestedDerivation(s2, a, b, l2);
    ThirdParts(s3, a, b, c, l3);
    DeriveThree(s1, s2, s3, "/", Early);
    DeriveOneOnly(s2, "/", Early);
    assert DeriveOne(InitialBuilder(), s1, "/", Early) == InitialBuilder();
    SeveralThird(a, b, c);
    assert DeriveOne(NestedState(a, b), s3, "/", Early) == DeriveParts(NestedState(a, b), [a, b, c], "/", 3);
  }

  /** The walks start from nodes 0, 3, 4 and 5 and never reach the first `a` and `a/b` (nodes 1 and 2). */
  lemma SeveralReached(a: string, b: string, c: string)
    requires Segment(a) && Segment(b) && Segment(c)
    ensures Wirable(SeveralState(a, b, c)) && Reached(SeveralState(a, b, c)) == {0, 3, 4, 5}
  {
    var d := SeveralState(a, b, c);
    assert d.registry[a + "/" + b + "/" + c] == 5;
    assert d.registry.Values == {0, 3, 4, 5} by {
      assert d.registry["/"] == 0 by { assert "/" != a + "/" + b + "/" + c && "/" != a + "/" + b && "/" != a; }
      assert d.registry[a] == 3 by { assert |a| < |a + "/" + b| < |a + "/" + b + "/" + c|; }
      assert d.registry[a + "/" + b] == 4;
    }
    assert Chain(d.nodes, 5) == {0, 3, 4, 5} by {
      assert Chain(d.nodes, 0) == {0};
      assert Chain(d.nodes, 3) == {3} + Chain(d.nodes, 0);
      assert Chain(d.nodes, 4) == {4} + Chain(d.nodes, 3);
    }
  }

  /**
   * The wiring pass looks parents up by NAME: the second `a` (3) goes under the
   * root and `a/b` (4) under 3, but the lookup for `a/b/c` (5) asks for the key
   * `b`, which is not registered, so 5 is left out of every directory.
   */
  lemma SeveralTargets(a: string, b: string, c: string)
    requires Segment(a) && Segment(b) && Segment(c) && a != b
    ensures Wirable(SeveralState(a, b, c))
    ensures var d := SeveralState(a, b, c);
      && WireTarget(d, Early, 0) == None && WireTarget(d, Early, 3) == Some(0)
      && WireTarget(d, Early, 4) == Some(3) && WireTarget(d, Early, 5) == None
  {
    var d := SeveralState(a, b, c);
    assert Wirable(d);
    assert b !in d.registry by {
      assert b != "/" by { assert b[0] != '/'; }
      assert |b| < |a + "/" + b| < |a + "/" + b + "/" + c|;
    }
    assert d.registry[a] == 3 by { assert |a| < |a + "/" + b| < |a + "/" + b + "/" + c|; }
    assert d.registry["/"] == 0 by { assert "/" != a + "/" + b + "/" + c && "/" != a + "/" + b && "/" != a; }
  }

  lemma SeveralAdopted(a: string, b: string, c: string)
    requires Segment(a) && Segment(b) && Segment(c) && a != b
    ensures Wirable(SeveralState(a, b, c)) && Reached(SeveralState(a, b, c)) == {0, 3, 4, 5}
    ensures var d := SeveralState(a, b, c);
      && Adopted(d, Early, {0, 3, 4, 5}, 0) == {3} && Adopted(d, Early, {0, 3, 4, 5}, 3) == {4}
      && Adopted(d, Early, {0, 3, 4, 5}, 1) == {} && Adopted(d, Early, {0, 3, 4, 5}, 2) == {}
      && Adopted(d, Early, {0, 3, 4, 5}, 4) == {} && Adopted(d, Early, {0, 3, 4, 5}, 5) == {}
  {
    var d := SeveralState(a, b, c);
    SeveralReached(a, b, c);
    SeveralTargets(a, b, c);
    AdoptedFour(d, Early, 0);
    AdoptedFour(d, Early, 1);
    AdoptedFour(d, Early, 2);
    AdoptedFour(d, Early, 3);
    AdoptedFour(d, Early, 4);
    AdoptedFour(d, Early, 5);
  }

  /** The nodes among 0, 3, 4 and 5 that the wiring pass puts under `t`. */
  lemma AdoptedFour(d: Builder, v: Variant, t: NodeId)
    requires Wirable(d) && 5 < |d.nodes|
    ensures Adopted(d, v, {0, 3, 4, 5}, t) ==
      (if WireTarget(d, v, 0) == Some(t) then {0} else {}) + (if WireTarget(d, v, 3) == Some(t) then {3} else {}) +
      (if WireTarget(d, v, 4) == Some(t) then {4} else {}) + (if WireTarget(d, v, 5) == Some(t) then {5} else {})
  {
  }

  /** The wired state for the three specs: only the root and the second `a` gain a child. */
  function SeveralWired(a: string, b: string, c: string): Builder {
    Builder([RootNode.(children := {3}),
             Directory(a, a, Some(0), {}, false),
             Directory(b, a + "/" + b, Some(1), {}, false),
             Directory(a, a, Some(0), {4}, false),
             Directory(b, a + "/" + b, Some(3), {}, false),
             Directory(c, a + "/" + b + "/" + c, Some(4), {}, false)],
            SeveralState(a, b, c).registry)
  }

  lemma SeveralWiring(a: string, b: string, c: string)
    requires Segment(a) && Segment(b) && Segment(c) && a != b
    ensures Wirable(SeveralState(a, b, c))
    ensures Wired(SeveralState(a, b, c), Early) == SeveralWired(a, b, c)
  {
    var d := SeveralState(a, b, c);
    SeveralAdopted(a, b, c);
    var w := Wired(d, Early).nodes;
    var e := SeveralWired(a, b, c).nodes;
    WiredNode(d, Early, 0);
    WiredNode(d, Early, 1);
    WiredNode(d, Early, 2);
    WiredNode(d, Early, 3);
    WiredNode(d, Early, 4);
    WiredNode(d, Early, 5);
    SixNodes(w, e);
  }

  /** The tree for the three specs: each file goes to the directory registered under its path. */
  function SeveralTreeOf(s1: Spec, s2: Spec, s3: Spec, a: string, b: string, c: string,
                         l1: string, l2: string, l3: string): SpecTree {
    SpecTree([RootNode.(children := {3}),
              Directory(a, a, Some(0), {}, false),
              Directory(b, a + "/" + b, Some(1), {}, false),
              Directory(a, a, Some(0), {4, 6}, false),
              Directory(b, a + "/" + b, Some(3), {7}, false),
              Directory(c, a + "/" + b + "/" + c, Some(4), {8}, false),
              File(l1, s1, 3), File(l2, s2, 4), File(l3, s3, 5)],
             RootId, SeveralState(a, b, c).registry)
  }

  /** Where the attach loop puts each of the three files: under 3, 4 and 5, the directories last registered. */
  lemma SeveralAttachTargets(s1: Spec, s2: Spec, s3: Spec, a: string, b: string, c: string, l1: string, l2: string, l3: string)
    requires Segment(a) && Segment(b) && Segment(c) && Segment(l1) && Segment(l2) && Segment(l3)
    requires s1.relative == a + "/" + l1 && s2.relative == a + "/" + b + "/" + l2
    requires s3.relative == a + "/" + b + "/" + c + "/" + l3
    ensures var r := SeveralState(a, b, c).registry;
      && AttachTarget(r, s1, "/", Early) == Success(3)
      && AttachTarget(r, s2, "/", Early) == Success(4)
      && AttachTarget(r, s3, "/", Early) == Success(5)
  {
    var r := SeveralState(a, b, c).registry;
    FirstParts(s1, a, l1);
    NestedParts(s2, a, b, l2);
    ThirdParts(s3, a, b, c, l3);
    assert r[a] == 3 by { assert |a| < |a + "/" + b| < |a + "/" + b + "/" + c|; }
    assert r[a + "/" + b] == 4 by { assert |a + "/" + b| < |a + "/" + b + "/" + c|; }
  }

  /** The wired arena with the three files added is the expected arena. */
  lemma SeveralArena(s1: Spec, s2: Spec, s3: Spec, a: string, b: string, c: string, l1: string, l2: string, l3: string)
    ensures AddThreeFiles(SeveralWired(a, b, c).nodes, 3, 4, 5, 6) + [File(l1, s1, 3), File(l2, s2, 4), File(l3, s3, 5)] ==
      SeveralTreeOf(s1, s2, s3, a, b, c, l1, l2, l3).nodes
  {
    var w := SeveralWired(a, b, c).nodes;
    var r := AddThreeFiles(w, 3, 4, 5, 6);
    var e := SeveralTreeOf(s1, s2, s3, a, b, c, l1, l2, l3).nodes;
    AddThreeFilesAt(w, 3, 4, 5, 6, 0);
    AddThreeFilesAt(w, 3, 4, 5, 6, 1);
    AddThreeFilesAt(w, 3, 4, 5, 6, 2);
    AddThreeFilesAt(w, 3, 4, 5, 6, 3);
    AddThreeFilesAt(w, 3, 4, 5, 6, 4);
    AddThreeFilesAt(w, 3, 4, 5, 6, 5);
    assert r[0] == e[0] && r[1] == e[1] && r[2] == e[2];
    assert r[3] == e[3] by { assert w[3].children + {6} == {4, 6}; }
    assert r[4] == e[4] && r[5] == e[5];
    NineNodes(r + [File(l1, s1, 3), File(l2, s2, 4), File(l3, s3, 5)], e);
  }

  /** Attaching the three files to the wired state. */
  lemma SeveralFinish(s1: Spec, s2: Spec, s3: Spec, a: string, b: string, c: string, l1: string, l2: string, l3: string)
    requires Segment(a) && Segment(b) && Segment(c) && Segment(l1) && Segment(l2) && Segment(l3)
    requires s1.relative == a + "/" + l1 && s2.relative == a + "/" + b + "/" + l2
    requires s3.relative == a + "/" + b + "/" + c + "/" + l3
    ensures AttachReady(SeveralWired(a, b, c))
    ensures Finish(SeveralWired(a, b, c), [s1, s2, s3], "/", Early) ==
      Success(SeveralTreeOf(s1, s2, s3, a, b, c, l1, l2, l3))
  {
    var w := SeveralWired(a, b, c);
    assert AttachReady(w) && "/" in w.registry;
    assert w.registry["/"] == 0 by { assert "/" != a + "/" + b + "/" + c && "/" != a + "/" + b && "/" != a; }
    SeveralAttachTargets(s1, s2, s3, a, b, c, l1, l2, l3);
    FirstParts(s1, a, l1);
    NestedParts(s2, a, b, l2);
    ThirdParts(s3, a, b, c, l3);
    FinishThree(w, s1, s2, s3, "/", Early, 3, 4, 5);
    SeveralArena(s1, s2, s3, a, b, c, l1, l2, l3);
  }

  /** The tree built for the three specs. */
  lemma SeveralTree(s1: Spec, s2: Spec, s3: Spec, a: string, b: string, c: string, l1: string, l2: string, l3: string)
    requires Segment(a) && Segment(b) && Segment(c) && Segment(l1) && Segment(l2) && Segment(l3) && a != b
    requires s1.relative == a + "/" + l1 && s2.relative == a + "/" + b + "/" + l2
    requires s3.relative == a + "/" + b + "/" + c + "/" + l3
    ensures BuildTree([s1, s2, s3], "/", Early) == Success(SeveralTreeOf(s1, s2, s3, a, b, c, l1, l2, l3))
  {
    SeveralDerivation(s1, s2, s3, a, b, c, l1, l2, l3);
    SeveralWiring(a, b, c);
    assert WiredState([s1, s2, s3], "/", Early) == SeveralWired(a, b, c);
    SeveralFinish(s1, s2, s3, a, b, c, l1, l2, l3);
  }

  /** The paths of the three specs, segment by segment. */
  lemma SeveralPaths(s1: Spec, s2: Spec, s3: Spec)
    requires s1 == CreateSpec("cypress", "foo") && s2 == CreateSpec("cypress/e2e", "bar")
    requires s3 == CreateSpec("cypress/e2e/bar", "qux")
    ensures s1.relative == "cypress" + "/" + "foo.cy.ts"
    ensures s2.relative == "cypress" + "/" + "e2e" + "/" + "bar.cy.ts"
    ensures s3.relative == "cypress" + "/" + "e2e" + "/" + "bar" + "/" + "qux.cy.ts"
  {
  }

  /**
   * "handles several nested specs": the root's one child is the (second)
   * cypress directory, whose two children are cypress/e2e and the file
   * foo.cy.ts; cypress/e2e's parent is that same cypress directory.
   */
  lemma SeveralSpecTree(s1: Spec, s2: Spec, s3: Spec)
    requires s1 == CreateSpec("cypress", "foo") && s2 == CreateSpec("cypress/e2e", "bar")
    requires s3 == CreateSpec("cypress/e2e/bar", "qux")
    ensures BuildTree([s1, s2, s3], "/", Early) ==
      Success(SeveralTreeOf(s1, s2, s3, "cypress", "e2e", "bar", "foo.cy.ts", "bar.cy.ts", "qux.cy.ts"))
  {
    SeveralPaths(s1, s2, s3);
    assert "cypress"[0] != "e2e"[0];
    SeveralTree(s1, s2, s3, "cypress", "e2e", "bar", "foo.cy.ts", "bar.cy.ts", "qux.cy.ts");
  }

  // ---------------------------------------------------------------------------
  // "handles a single spec at the root level": one spec `leaf`, without a directory.

  /** A separator-free path splits into itself twice, so both copies skip it and attach it to the root. */
  lemma RootParts(s: Spec, leaf: string, v: Variant)
    requires Segment(leaf) && s.relative == leaf
    ensures SplitIntoParts(s.relative, "/") == Parts(leaf, leaf)
    ensures SkipsDerivation(s, "/", v) && AttachesToRoot(s, "/", v)
  {
    Slashless(leaf);
    SplitIntoPartsSpec(leaf, "/");
    SplitSingle(leaf, "/");
  }

  /** Nothing is derived for a root-level spec, and the wiring pass leaves the lone root as it is. */
  lemma RootWired(s: Spec, leaf: string, v: Variant)
    requires Segment(leaf) && s.relative == leaf
    ensures WiredState([s], "/", v) == InitialBuilder()
  {
    RootParts(s, leaf, v);
    DeriveOneOnly(s, "/", v);
    assert DeriveAll([s], "/", v) == InitialBuilder();
    var d := InitialBuilder();
    assert Chain(d.nodes, 0) == {0};
    assert d.registry["/"] == 0 && 0 in d.registry.Values;
    assert Reached(d) == {0};
    assert WireTarget(d, v, 0) == None;
    assert Adopted(d, v, {0}, 0) == {};
    WiredNode(d, v, 0);
    assert Wired(d, v).nodes[0] == RootNode by { assert RootNode.children + {} == {}; }
  }

  /** The tree for one root-level spec: the root holding the one file. */
  function RootTreeOf(s: Spec, leaf: string): SpecTree {
    SpecTree([RootNode.(children := {1}), File(leaf, s, 0)], RootId, map["/" := RootId])
  }

  /** The tree built for one root-level spec `leaf`, by either copy of the algorithm. */
  lemma RootTree(s: Spec, leaf: string, v: Variant)
    requires Segment(leaf) && s.relative == leaf
    ensures BuildTree([s], "/", v) == Success(RootTreeOf(s, leaf))
  {
    var specs := [s];
    var w := InitialBuilder();
    RootWired(s, leaf, v);
    RootParts(s, leaf, v);
    assert AttachReady(w) && AttachTarget(w.registry, s, "/", v) == Success(0);
    OneAttached(w.registry, s, "/", v, 1, 0);
    FinishSucceeds(w, specs, "/", v);
    var t := Finish(w, specs, "/", v).value;
    FinishSuccess(w, specs, "/", v, t);
    FinishFile(w, specs, "/", v, t, |w.nodes|, 0);
    FinishedDirectory(w, specs, "/", v, t, 0);
    assert RootNode.children + {1} == {1};
    assert t.nodes == RootTreeOf(s, leaf).nodes;
  }

  /**
   * "handles a single spec at the root level": the root "/" (a directory without
   * parent, not collapsed) has exactly one child, the file smoke.cy.ts, whose
   * parent is the root.
   */
  lemma RootSpecTree(s: Spec)
    requires s == CreateSpec("", "smoke")
    ensures BuildTree([s], "/", Early) == Success(RootTreeOf(s, "smoke.cy.ts"))
  {
    assert s.relative == "smoke.cy.ts";
    RootTree(s, "smoke.cy.ts", Early);
  }
}
