/**
 * Step 4 of deriveSpecTree: the file-attachment loop (src/tree.ts:161-185,
 * src/tree.spec.ts:180-204). Each processed spec becomes one fresh file node,
 * added to the root when it is root-level and otherwise to the directory
 * registered under its path ("" read as "/"); when that lookup misses, the build
 * throws.
 *
 * What the loop works out for a spec before touching the arena (its file name and
 * its directory, or the throw) is a `Placement`; the arena side of the loop is
 * stated over placements, so that its properties do not depend on how paths are
 * split.
 */
module Attach {
  import opened Wrappers
  import opened Paths
  import opened TreeModel

  /** What attaching needs: a root directory and a registry of directories. */
  ghost predicate AttachReady(b: Builder) {
    && |b.nodes| >= 1 && b.nodes[RootId].Directory?
    && forall k | k in b.registry :: b.registry[k] < |b.nodes| && b.nodes[b.registry[k]].Directory?
  }

  /** The directory a spec's file goes to, or the error the attach loop throws. */
  function AttachTarget(registry: map<string, NodeId>, spec: Spec, sep: string, v: Variant): Result<NodeId, TreeError> {
    var key := AttachKey(spec, sep);
    if AttachesToRoot(spec, sep, v) then Success(RootId)
    else if key in registry then Success(registry[key])
    else Failure(MissingDirectory(key))
  }

  /** One spec as the loop sees it: the spec, the name of its file node, and its directory or the throw. */
  datatype Placement = Placement(spec: Spec, name: string, target: Result<NodeId, TreeError>)

  function Place(registry: map<string, NodeId>, spec: Spec, sep: string, v: Variant): Placement {
    Placement(spec, SplitIntoParts(spec.relative, sep).name, AttachTarget(registry, spec, sep, v))
  }

  function Placements(registry: map<string, NodeId>, specs: seq<Spec>, sep: string, v: Variant): seq<Placement> {
    seq(|specs|, i requires 0 <= i < |specs| => Place(registry, specs[i], sep, v))
  }

  /** Every directory the placements name lies in an arena of `size` nodes. */
  ghost predicate InArena(ps: seq<Placement>, size: nat) {
    forall i | 0 <= i < |ps| :: ps[i].target.Success? ==> ps[i].target.value < size
  }

  /** A node with its children left out: what attaching never changes. */
  function Skeleton(n: Node): Node {
    if n.Directory? then n.(children := {}) else n
  }

  /** The children a node has (none for a file). */
  function ChildrenOf(n: Node): set<NodeId> {
    if n.Directory? then n.children else {}
  }

  /** `parent.children.add(fileNode)`; targets are always directories, so a file is never asked. */
  function AddChild(n: Node, c: NodeId): Node {
    if n.Directory? then n.(children := n.children + {c}) else n
  }

  /** One iteration: a fresh file node at the end of the arena, added to its directory's children. */
  function AttachFile(b: Builder, p: Placement): (r: Result<Builder, TreeError>)
    requires p.target.Success? ==> p.target.value < |b.nodes|
    ensures r.Success? <==> p.target.Success?
    ensures r.Success? ==> |r.value.nodes| == |b.nodes| + 1 && r.value.registry == b.registry
  {
    match p.target
    case Failure(e) => Failure(e)
    case Success(t) => Success(Builder(b.nodes[t := AddChild(b.nodes[t], |b.nodes|)] + [File(p.name, p.spec, t)], b.registry))
  }

  /** The attach loop over the placements, stopping at the first throw. */
  function AttachAll(b: Builder, ps: seq<Placement>): (r: Result<Builder, TreeError>)
    requires InArena(ps, |b.nodes|)
    ensures r.Success? ==> |r.value.nodes| == |b.nodes| + |ps| && r.value.registry == b.registry
    decreases |ps|
  {
    if ps == [] then Success(b)
    else
      match AttachAll(b, ps[..|ps| - 1])
      case Failure(e) => Failure(e)
      case Success(m) => AttachFile(m, ps[|ps| - 1])
  }

  /** On a ready builder every placement's directory is in the arena. */
  lemma PlacementsInArena(b: Builder, specs: seq<Spec>, sep: string, v: Variant)
    requires AttachReady(b)
    ensures InArena(Placements(b.registry, specs, sep, v), |b.nodes|)
  {
  }

  /** The attach loop over `specs`. */
  ghost function AttachLoop(b: Builder, specs: seq<Spec>, sep: string, v: Variant): (r: Result<Builder, TreeError>)
    requires AttachReady(b)
    ensures r.Success? ==> |r.value.nodes| == |b.nodes| + |specs| && r.value.registry == b.registry
  {
    PlacementsInArena(b, specs, sep, v);
    AttachAll(b, Placements(b.registry, specs, sep, v))
  }

  /** The attach loop. */
  method AttachFiles(b: Builder, specs: seq<Spec>, sep: string, v: Variant) returns (r: Result<Builder, TreeError>)
    requires AttachReady(b)
    ensures r == AttachLoop(b, specs, sep, v)
  {
    ghost var ps := Placements(b.registry, specs, sep, v);
    PlacementsInArena(b, specs, sep, v);
    var nodes := b.nodes;
    var j := 0;
    while j < |specs|
      invariant j <= |specs|
      invariant AttachAll(b, ps[..j]) == Success(Builder(nodes, b.registry))
    {
      assert ps[j] == Place(b.registry, specs[j], sep, v);
      var step := AttachSpec(nodes, b.registry, specs[j], sep, v);
      if step.Failure? {
        AttachAllThrows(b, ps, j, Builder(nodes, b.registry));
        return Failure(step.error);
      }
      AttachAllPrefix(b, ps, j);
      nodes := step.value;
      j := j + 1;
    }
    assert ps[..j] == ps;
    r := Success(Builder(nodes, b.registry));
  }

  /** One pass of the loop body: find the spec's directory, then append its file node and add it to the directory. */
  method AttachSpec(nodes: seq<Node>, registry: map<string, NodeId>, spec: Spec, sep: string, v: Variant)
    returns (r: Result<seq<Node>, TreeError>)
    requires |nodes| >= 1 && forall k | k in registry :: registry[k] < |nodes|
    ensures AttachFile(Builder(nodes, registry), Place(registry, spec, sep, v))
      == if r.Success? then Success(Builder(r.value, registry)) else Failure(r.error)
  {
    var parts := SplitIntoParts(spec.relative, sep);
    var path := if parts.path == "" then "/" else parts.path;
    var isRoot := match v
      case Current => IsRootLevelSpec(spec.relative, parts.name)
      case Early => IsRootLevelParts(spec.relative, Split(path, sep));
    assert path == AttachKey(spec, sep) && isRoot == AttachesToRoot(spec, sep, v);
    var parent: NodeId;
    if isRoot {
      parent := RootId;
    } else if path in registry {
      parent := registry[path];
    } else {
      return Failure(MissingDirectory(path));
    }
    var fileNode := File(parts.name, spec, parent);
    r := Success(nodes[parent := AddChild(nodes[parent], |nodes|)] + [fileNode]);
  }

  /** One iteration of the loop that misses its directory: the loop throws its error. */
  lemma AttachAllThrows(b: Builder, ps: seq<Placement>, j: nat, m: Builder)
    requires InArena(ps, |b.nodes|) && j < |ps| && AttachAll(b, ps[..j]) == Success(m)
    requires ps[j].target.Failure?
    ensures AttachAll(b, ps) == Failure(ps[j].target.error)
  {
    AttachAllPrefix(b, ps, j);
    AttachAllStops(b, ps, j + 1);
    assert ps[..|ps|] == ps;
  }

  // ---------------------------------------------------------------------------
  // The loop over placements.

  /** The loop over the first j + 1 placements is the loop over the first j, then placement j. */
  lemma AttachAllPrefix(b: Builder, ps: seq<Placement>, j: nat)
    requires InArena(ps, |b.nodes|) && j < |ps| && AttachAll(b, ps[..j]).Success?
    ensures AttachAll(b, ps[..j + 1]) == AttachFile(AttachAll(b, ps[..j]).value, ps[j])
  {
    assert ps[..j + 1][..j] == ps[..j];
  }

  /** A successful loop over `ps` is a successful loop over all but the last, then one more iteration. */
  lemma AttachAllSnoc(b: Builder, ps: seq<Placement>)
    requires InArena(ps, |b.nodes|) && ps != [] && AttachAll(b, ps).Success?
    ensures var init := ps[..|ps| - 1];
      && AttachAll(b, init).Success?
      && AttachAll(b, ps) == AttachFile(AttachAll(b, init).value, ps[|ps| - 1])
  {
  }

  /** A throw stops the loop: the result of the whole loop is the throw of a prefix. */
  lemma {:induction false} AttachAllStops(b: Builder, ps: seq<Placement>, k: nat)
    requires InArena(ps, |b.nodes|) && k <= |ps|
    requires AttachAll(b, ps[..k]).Failure?
    ensures AttachAll(b, ps) == AttachAll(b, ps[..k])
    decreases |ps|
  {
    if k < |ps| {
      var init := ps[..|ps| - 1];
      assert init[..k] == ps[..k];
      AttachAllStops(b, init, k);
    } else {
      assert ps[..k] == ps;
    }
  }

  /** A loop that did not throw had a directory for every placement. */
  lemma {:induction false} AttachAllTargets(b: Builder, ps: seq<Placement>)
    requires InArena(ps, |b.nodes|) && AttachAll(b, ps).Success?
    ensures forall i | 0 <= i < |ps| :: ps[i].target.Success?
    decreases |ps|
  {
    if ps != [] {
      var init := ps[..|ps| - 1];
      AttachAllSnoc(b, ps);
      AttachAllTargets(b, init);
      forall i | 0 <= i < |ps| ensures ps[i].target.Success? {
        if i < |init| {
          assert ps[i] == init[i];
        }
      }
    }
  }

  /** When every placement has a directory the loop does not throw. */
  lemma {:induction false} AttachAllSucceeds(b: Builder, ps: seq<Placement>)
    requires InArena(ps, |b.nodes|)
    requires forall i | 0 <= i < |ps| :: ps[i].target.Success?
    ensures AttachAll(b, ps).Success?
    decreases |ps|
  {
    if ps != [] {
      var init := ps[..|ps| - 1];
      forall i | 0 <= i < |init| ensures init[i].target.Success? {
        assert init[i] == ps[i];
      }
      AttachAllSucceeds(b, init);
    }
  }

  /** The first placement without a directory. */
  ghost predicate FirstFailure(ps: seq<Placement>, j: nat) {
    && j < |ps| && ps[j].target.Failure?
    && forall i | 0 <= i < j :: ps[i].target.Success?
  }

  /** The loop throws the error of the first placement without a directory. */
  lemma AttachAllFails(b: Builder, ps: seq<Placement>, j: nat)
    requires InArena(ps, |b.nodes|) && FirstFailure(ps, j)
    ensures AttachAll(b, ps) == Failure(ps[j].target.error)
  {
    var init := ps[..j];
    forall i | 0 <= i < |init| ensures init[i].target.Success? {
      assert init[i] == ps[i];
    }
    AttachAllSucceeds(b, init);
    AttachAllPrefix(b, ps, j);
    AttachAllStops(b, ps, j + 1);
  }

  /**
   * On success, placement `j` became exactly one file node, at position
   * |b.nodes| + j, carrying the placement's name, spec and directory.
   */
  lemma {:induction false} AttachAllFiles(b: Builder, ps: seq<Placement>, j: nat)
    requires InArena(ps, |b.nodes|) && AttachAll(b, ps).Success? && j < |ps|
    ensures ps[j].target.Success?
    ensures AttachAll(b, ps).value.nodes[|b.nodes| + j] == File(ps[j].name, ps[j].spec, ps[j].target.value)
    decreases |ps|
  {
    var init := ps[..|ps| - 1];
    AttachAllSnoc(b, ps);
    var m := AttachAll(b, init).value;
    if j < |init| {
      AttachAllFiles(b, init, j);
      assert ps[j] == init[j];
      assert m.nodes[|b.nodes| + j].File?;
    }
  }

  /** On success, the nodes that were there keep everything but their children. */
  lemma {:induction false} AttachAllSkeleton(b: Builder, ps: seq<Placement>, i: nat)
    requires InArena(ps, |b.nodes|) && AttachAll(b, ps).Success? && i < |b.nodes|
    ensures Skeleton(AttachAll(b, ps).value.nodes[i]) == Skeleton(b.nodes[i])
    decreases |ps|
  {
    if ps != [] {
      var init := ps[..|ps| - 1];
      AttachAllSnoc(b, ps);
      AttachAllSkeleton(b, init, i);
    }
  }

  /** The ids of the file nodes that placements targeting `t` receive when the arena starts at `base`. */
  ghost function FilesUnder(ps: seq<Placement>, base: nat, t: NodeId): set<NodeId> {
    set x: NodeId | base <= x < base + |ps| && FileUnder(ps, base, t, x)
  }

  /** Node `x` is the file of a placement targeting `t`. */
  ghost predicate FileUnder(ps: seq<Placement>, base: nat, t: NodeId, x: NodeId) {
    base <= x < base + |ps| && ps[x - base].target == Success(t)
  }

  /** Adding one placement at the end adds its file id when it targets `t`. */
  lemma FilesUnderSnoc(ps: seq<Placement>, base: nat, t: NodeId)
    requires ps != []
    ensures var init := ps[..|ps| - 1];
      FilesUnder(ps, base, t) ==
        FilesUnder(init, base, t) + (if ps[|ps| - 1].target == Success(t) then {base + |init|} else {})
  {
    var init := ps[..|ps| - 1];
    forall x | x in FilesUnder(ps, base, t) && x - base < |init|
      ensures x in FilesUnder(init, base, t)
    {
      assert ps[x - base] == init[x - base];
    }
    forall x | x in FilesUnder(init, base, t)
      ensures x in FilesUnder(ps, base, t)
    {
      assert ps[x - base] == init[x - base];
    }
  }

  /** On success, each directory that was there gains exactly the files placed under it. */
  lemma {:induction false} AttachAllChildren(b: Builder, ps: seq<Placement>, i: nat)
    requires InArena(ps, |b.nodes|) && AttachAll(b, ps).Success? && i < |b.nodes| && b.nodes[i].Directory?
    ensures ChildrenOf(AttachAll(b, ps).value.nodes[i]) == ChildrenOf(b.nodes[i]) + FilesUnder(ps, |b.nodes|, i)
    decreases |ps|
  {
    if ps == [] {
      assert FilesUnder(ps, |b.nodes|, i) == {};
    } else {
      var init := ps[..|ps| - 1];
      AttachAllSnoc(b, ps);
      AttachAllChildren(b, init, i);
      AttachAllSkeleton(b, init, i);
      FilesUnderSnoc(ps, |b.nodes|, i);
    }
  }

  // ---------------------------------------------------------------------------
  // The loop over specs, and the last step: the root lookup (src/tree.ts:187-196,
  // src/tree.spec.ts:206-215).

  /** The first spec whose target lookup fails. */
  ghost predicate FirstMissing(registry: map<string, NodeId>, specs: seq<Spec>, sep: string, v: Variant, j: nat) {
    && j < |specs| && AttachTarget(registry, specs[j], sep, v).Failure?
    && forall i | 0 <= i < j :: AttachTarget(registry, specs[i], sep, v).Success?
  }

  /** Every spec that throws has a first one before or at it. */
  lemma {:induction false} FirstMissingExists(registry: map<string, NodeId>, specs: seq<Spec>, sep: string, v: Variant, k: nat)
    requires k < |specs| && AttachTarget(registry, specs[k], sep, v).Failure?
    ensures exists j: nat :: j <= k && FirstMissing(registry, specs, sep, v, j)
    decreases k
  {
    if forall i | 0 <= i < k :: AttachTarget(registry, specs[i], sep, v).Success? {
      assert FirstMissing(registry, specs, sep, v, k);
    } else {
      var i :| 0 <= i < k && AttachTarget(registry, specs[i], sep, v).Failure?;
      FirstMissingExists(registry, specs, sep, v, i);
    }
  }

  /** The attach loop followed by the lookup of the root under "/". */
  ghost function Finish(w: Builder, specs: seq<Spec>, sep: string, v: Variant): (r: Result<SpecTree, TreeError>)
    requires AttachReady(w)
    ensures r.Success? ==> r.value.registry == w.registry && |r.value.nodes| == |w.nodes| + |specs|
  {
    match AttachLoop(w, specs, sep, v)
    case Failure(e) => Failure(e)
    case Success(a) =>
      if "/" in a.registry then Success(SpecTree(a.nodes, a.registry["/"], a.registry)) else Failure(MissingRoot)
  }

  /** The finish throws the lookup error of the first spec without a directory. */
  lemma FinishFails(w: Builder, specs: seq<Spec>, sep: string, v: Variant, j: nat)
    requires AttachReady(w) && FirstMissing(w.registry, specs, sep, v, j)
    ensures Finish(w, specs, sep, v) == Failure(AttachTarget(w.registry, specs[j], sep, v).error)
  {
    var ps := Placements(w.registry, specs, sep, v);
    PlacementsInArena(w, specs, sep, v);
    assert FirstFailure(ps, j);
    AttachAllFails(w, ps, j);
  }

  /** When every spec has a directory and "/" is registered, the finish succeeds. */
  lemma FinishSucceeds(w: Builder, specs: seq<Spec>, sep: string, v: Variant)
    requires AttachReady(w) && "/" in w.registry
    requires forall i | 0 <= i < |specs| :: AttachTarget(w.registry, specs[i], sep, v).Success?
    ensures Finish(w, specs, sep, v).Success?
  {
    var ps := Placements(w.registry, specs, sep, v);
    PlacementsInArena(w, specs, sep, v);
    AttachAllSucceeds(w, ps);
  }

  /** A successful finish had a directory for every spec and a registry holding "/", under which the root is. */
  lemma FinishSuccess(w: Builder, specs: seq<Spec>, sep: string, v: Variant, t: SpecTree)
    requires AttachReady(w) && Finish(w, specs, sep, v) == Success(t)
    ensures forall i | 0 <= i < |specs| :: AttachTarget(w.registry, specs[i], sep, v).Success?
    ensures t.registry == w.registry && "/" in w.registry && t.root == w.registry["/"]
    ensures |t.nodes| == |w.nodes| + |specs|
  {
    var ps := Placements(w.registry, specs, sep, v);
    PlacementsInArena(w, specs, sep, v);
    AttachAllTargets(w, ps);
    forall i | 0 <= i < |specs| ensures AttachTarget(w.registry, specs[i], sep, v).Success? {
      assert ps[i].target.Success?;
    }
  }

  /** After a successful finish, spec `j` is the file node `|w.nodes| + j`. */
  lemma FinishFile(w: Builder, specs: seq<Spec>, sep: string, v: Variant, t: SpecTree, base: nat, j: nat)
    requires AttachReady(w) && Finish(w, specs, sep, v) == Success(t) && base == |w.nodes| && j < |specs|
    ensures AttachTarget(w.registry, specs[j], sep, v).Success? && base + j < |t.nodes| && |t.nodes| == base + |specs|
    ensures t.nodes[base + j] ==
      File(SplitIntoParts(specs[j].relative, sep).name, specs[j], AttachTarget(w.registry, specs[j], sep, v).value)
  {
    var ps := Placements(w.registry, specs, sep, v);
    PlacementsInArena(w, specs, sep, v);
    AttachAllFiles(w, ps, j);
  }

  /** The ids of the file nodes that specs targeting `t` receive when the arena starts at `base`. */
  ghost function AttachedTo(registry: map<string, NodeId>, specs: seq<Spec>, sep: string, v: Variant, base: nat, t: NodeId): set<NodeId> {
    set x: NodeId | base <= x < base + |specs| && AttachedFile(registry, specs, sep, v, base, t, x)
  }

  /** Node `x` is the file of a spec targeting `t`. */
  ghost predicate AttachedFile(registry: map<string, NodeId>, specs: seq<Spec>, sep: string, v: Variant, base: nat, t: NodeId, x: NodeId) {
    base <= x < base + |specs| && AttachTarget(registry, specs[x - base], sep, v) == Success(t)
  }

  lemma FilesUnderPlacements(registry: map<string, NodeId>, specs: seq<Spec>, sep: string, v: Variant, base: nat, t: NodeId)
    ensures FilesUnder(Placements(registry, specs, sep, v), base, t) == AttachedTo(registry, specs, sep, v, base, t)
  {
    var ps := Placements(registry, specs, sep, v);
    forall x | x in FilesUnder(ps, base, t) ensures x in AttachedTo(registry, specs, sep, v, base, t) {
      var j :| 0 <= j < |ps| && ps[j].target == Success(t) && x == base + j;
      AttachedToHas(registry, specs, sep, v, base, t, j);
    }
    forall x | x in AttachedTo(registry, specs, sep, v, base, t) ensures x in FilesUnder(ps, base, t) {
      var j :| 0 <= j < |specs| && AttachTarget(registry, specs[j], sep, v) == Success(t) && x == base + j;
      assert ps[j].target == Success(t);
    }
  }

  /** One more spec adds its file id to the directory it targets and to no other. */
  lemma AttachedToSnoc(registry: map<string, NodeId>, specs: seq<Spec>, s: Spec, sep: string, v: Variant, base: nat, t: NodeId)
    ensures AttachedTo(registry, specs + [s], sep, v, base, t) == AttachedTo(registry, specs, sep, v, base, t) +
      (if AttachTarget(registry, s, sep, v) == Success(t) then {base + |specs|} else {})
  {
    var ss := specs + [s];
    var extra: set<NodeId> := if AttachTarget(registry, s, sep, v) == Success(t) then {base + |specs|} else {};
    assert AttachedTo(registry, ss, sep, v, base, t) <= AttachedTo(registry, specs, sep, v, base, t) + extra by {
      forall x | x in AttachedTo(registry, ss, sep, v, base, t) ensures x in AttachedTo(registry, specs, sep, v, base, t) + extra {
        var j :| 0 <= j < |ss| && AttachTarget(registry, ss[j], sep, v) == Success(t) && x == base + j;
        if j < |specs| {
          assert ss[j] == specs[j];
        }
      }
    }
    assert AttachedTo(registry, specs, sep, v, base, t) <= AttachedTo(registry, ss, sep, v, base, t) by {
      forall x | x in AttachedTo(registry, specs, sep, v, base, t) ensures x in AttachedTo(registry, ss, sep, v, base, t) {
        var j :| 0 <= j < |specs| && AttachTarget(registry, specs[j], sep, v) == Success(t) && x == base + j;
        assert ss[j] == specs[j];
      }
    }
    assert extra <= AttachedTo(registry, ss, sep, v, base, t) by {
      if AttachTarget(registry, s, sep, v) == Success(t) {
        assert ss[|specs|] == s;
      }
    }
  }

  /** The file id of a spec attached to `t` is in AttachedTo. */
  lemma AttachedToHas(registry: map<string, NodeId>, specs: seq<Spec>, sep: string, v: Variant, base: nat, t: NodeId, j: nat)
    requires j < |specs| && AttachTarget(registry, specs[j], sep, v) == Success(t)
    ensures base + j in AttachedTo(registry, specs, sep, v, base, t)
  {
  }

  /** A member of AttachedTo is the file id of a spec attached to `t`. */
  lemma AttachedToMember(registry: map<string, NodeId>, specs: seq<Spec>, sep: string, v: Variant, base: nat, t: NodeId, x: nat)
    requires x in AttachedTo(registry, specs, sep, v, base, t)
    ensures base <= x < base + |specs| && AttachTarget(registry, specs[x - base], sep, v) == Success(t)
  {
    var j :| 0 <= j < |specs| && AttachTarget(registry, specs[j], sep, v) == Success(t) && x == base + j;
    assert x - base == j;
  }

  /**
   * After a successful finish, the nodes of `w` keep everything but their children,
   * and its directories gain exactly the files attached to them.
   */
  lemma FinishKeeps(w: Builder, specs: seq<Spec>, sep: string, v: Variant, t: SpecTree, i: nat)
    requires AttachReady(w) && Finish(w, specs, sep, v) == Success(t) && i < |w.nodes|
    ensures i < |t.nodes| && Skeleton(t.nodes[i]) == Skeleton(w.nodes[i])
    ensures w.nodes[i].Directory? ==>
      ChildrenOf(t.nodes[i]) == ChildrenOf(w.nodes[i]) + AttachedTo(w.registry, specs, sep, v, |w.nodes|, i)
  {
    var ps := Placements(w.registry, specs, sep, v);
    PlacementsInArena(w, specs, sep, v);
    AttachAllSkeleton(w, ps, i);
    if w.nodes[i].Directory? {
      AttachAllChildren(w, ps, i);
      FilesUnderPlacements(w.registry, specs, sep, v, |w.nodes|, i);
    }
  }

  /** A child a directory gains in a successful finish is the file of a spec attached to it. */
  lemma FinishNewChild(w: Builder, specs: seq<Spec>, sep: string, v: Variant, t: SpecTree, base: nat, i: nat, x: NodeId)
    requires AttachReady(w) && Finish(w, specs, sep, v) == Success(t) && base == |w.nodes|
    requires i < base && w.nodes[i].Directory?
    requires i < |t.nodes| && x in ChildrenOf(t.nodes[i]) && x !in ChildrenOf(w.nodes[i])
    ensures base <= x < base + |specs|
    ensures AttachTarget(w.registry, specs[x - base], sep, v) == Success(i)
  {
    FinishKeeps(w, specs, sep, v, t, i);
    AttachedToMember(w.registry, specs, sep, v, base, i, x);
  }

  /** In a successful finish, spec `j`'s file (id `base + j`) is among the children of the directory it targets. */
  lemma FinishTargetHolds(w: Builder, specs: seq<Spec>, sep: string, v: Variant, t: SpecTree, base: nat, j: nat)
    requires AttachReady(w) && Finish(w, specs, sep, v) == Success(t) && base == |w.nodes| && j < |specs|
    ensures AttachTarget(w.registry, specs[j], sep, v).Success?
    ensures var p := AttachTarget(w.registry, specs[j], sep, v).value;
      && p < base && p < |t.nodes| && base + j < |t.nodes|
      && t.nodes[p].Directory? && base + j in t.nodes[p].children
  {
    FinishFile(w, specs, sep, v, t, base, j);
    var p := AttachTarget(w.registry, specs[j], sep, v).value;
    TargetInArena(w, specs[j], sep, v);
    FinishKeeps(w, specs, sep, v, t, p);
    AttachedToHas(w.registry, specs, sep, v, base, p, j);
    assert t.nodes[p].Directory?;
    assert base + j in ChildrenOf(t.nodes[p]);
  }

  /** The directory a spec attaches to is a directory of the arena. */
  lemma TargetInArena(w: Builder, spec: Spec, sep: string, v: Variant)
    requires AttachReady(w) && AttachTarget(w.registry, spec, sep, v).Success?
    ensures var p := AttachTarget(w.registry, spec, sep, v).value; p < |w.nodes| && w.nodes[p].Directory?
  {
  }
}
