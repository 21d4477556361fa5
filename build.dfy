/**
 * deriveSpecTree as a whole (src/tree.ts:68-197, and the filter-less copy at
 * src/tree.spec.ts:95-216): derivation, wiring, attachment and the final lookup
 * of the root under "/", and what the returned tree looks like.
 */
module Build {
  import opened Wrappers
  import opened Paths
  import opened TreeModel
  import opened Specs
  import opened Derive
  import opened Wire
  import opened Attach

  /** After derivation the wiring pass applies, and after wiring the attach loop applies. */
  lemma DerivedReady(specs: seq<Spec>, sep: string, v: Variant)
    ensures Shaped(DeriveAll(specs, sep, v), sep) && Wirable(DeriveAll(specs, sep, v))
    ensures AttachReady(Wired(DeriveAll(specs, sep, v), v))
  {
    var d := DeriveAll(specs, sep, v);
    DeriveAllShaped(specs, sep, v);
    ShapedWirable(d, sep);
  }

  /** The state the attach loop starts from: derived, then wired. */
  ghost function WiredState(specs: seq<Spec>, sep: string, v: Variant): (w: Builder)
    ensures AttachReady(w)
    ensures |w.nodes| == |DeriveAll(specs, sep, v).nodes| && w.registry == DeriveAll(specs, sep, v).registry
  {
    DerivedReady(specs, sep, v);
    Wired(DeriveAll(specs, sep, v), v)
  }

  /**
   * What deriveSpecTree returns for the processed `specs`: the tree, rooted at the
   * node registered under "/", or the error it throws.
   */
  ghost function BuildTree(specs: seq<Spec>, sep: string, v: Variant): Result<SpecTree, TreeError> {
    Finish(WiredState(specs, sep, v), specs, sep, v)
  }

  /** The builder shared by both copies: the four steps in order. */
  method BuildSpecTree(specs: seq<Spec>, sep: string, v: Variant) returns (r: Result<SpecTree, TreeError>)
    ensures r == BuildTree(specs, sep, v)
  {
    var derived := DeriveDirectories(specs, sep, v);
    ShapedWirable(derived, sep);
    var wired := AssignDirectories(derived, v);
    DerivedReady(specs, sep, v);
    var attached := AttachFiles(wired, specs, sep, v);
    if attached.Failure? {
      return Failure(attached.error);
    }
    var registry := attached.value.registry;
    if "/" !in registry {
      return Failure(MissingRoot);
    }
    r := Success(SpecTree(attached.value.nodes, registry["/"], registry));
  }

  /**
   * deriveSpecTree of src/tree.ts: the separator defaults to "/", and a non-empty
   * search keeps only the specs whose relative path contains it.
   */
  method DeriveSpecTree(allSpecs: seq<Spec>, options: SpecListOptions) returns (r: Result<SpecTree, TreeError>)
    ensures r == BuildTree(FilterSpecs(allSpecs, options.search), SeparatorOf(options), Current)
  {
    var sep := match options.sep case Some(s) => s case None => "/";
    var specs := allSpecs;
    if options.search.Some? && options.search.value != "" {
      specs := FilterSpecs(allSpecs, options.search);
    }
    r := BuildSpecTree(specs, sep, Current);
  }

  // ---------------------------------------------------------------------------
  // The returned tree in terms of the three steps.

  /** The number of nodes the derivation creates, root included; file nodes come after them. */
  function DirectoryCount(specs: seq<Spec>, sep: string, v: Variant): nat {
    |DeriveAll(specs, sep, v).nodes|
  }

  /** The wired state has the derived nodes, and no more. */
  lemma WiredCount(specs: seq<Spec>, sep: string, v: Variant)
    ensures |WiredState(specs, sep, v).nodes| == DirectoryCount(specs, sep, v)
  {
  }

  /** In a successful build the derived nodes keep their name, path, parent and flag. */
  lemma BuildKeepsDirectory(specs: seq<Spec>, sep: string, v: Variant, t: SpecTree, i: nat)
    requires BuildTree(specs, sep, v) == Success(t) && i < DirectoryCount(specs, sep, v)
    ensures var d := DeriveAll(specs, sep, v);
      && i < |t.nodes| && t.nodes[i].Directory? && d.nodes[i].Directory?
      && t.nodes[i] == d.nodes[i].(children := t.nodes[i].children)
  {
    var d := DeriveAll(specs, sep, v);
    var w := WiredState(specs, sep, v);
    DerivedReady(specs, sep, v);
    WiredKeepsSkeleton(d, v, i);
    FinishKeeps(w, specs, sep, v, t, i);
  }

  // ---------------------------------------------------------------------------
  // When the build throws.

  /**
   * A spec the attach loop cannot place: it is not attached to the root, and its
   * path (after `path ||= "/"`) is neither "/" nor registered by any processed spec.
   */
  ghost predicate Unplaceable(specs: seq<Spec>, sep: string, v: Variant, spec: Spec) {
    && !AttachesToRoot(spec, sep, v)
    && AttachKey(spec, sep) != "/"
    && !SomeSpecDerives(specs, sep, v, AttachKey(spec, sep))
  }

  lemma TargetFails(specs: seq<Spec>, sep: string, v: Variant, spec: Spec)
    ensures AttachTarget(WiredState(specs, sep, v).registry, spec, sep, v).Failure? <==> Unplaceable(specs, sep, v, spec)
  {
    DeriveAllKeys(specs, sep, v, AttachKey(spec, sep));
  }

  /**
   * The "could not find directory node" throw happens exactly when some processed
   * spec is unplaceable, and it reports the path of the first such spec; the
   * "could not find root node" throw never happens.
   */
  lemma BuildFailure(specs: seq<Spec>, sep: string, v: Variant)
    ensures BuildTree(specs, sep, v).Failure? <==>
      exists j :: 0 <= j < |specs| && Unplaceable(specs, sep, v, specs[j])
    ensures BuildTree(specs, sep, v).Failure? ==>
      exists j :: 0 <= j < |specs| && Unplaceable(specs, sep, v, specs[j])
        && (forall i | 0 <= i < j :: !Unplaceable(specs, sep, v, specs[i]))
        && BuildTree(specs, sep, v).error == MissingDirectory(AttachKey(specs[j], sep))
    ensures BuildTree(specs, sep, v) != Failure(MissingRoot)
  {
    var w := WiredState(specs, sep, v);
    if exists j :: 0 <= j < |specs| && Unplaceable(specs, sep, v, specs[j]) {
      var j :| 0 <= j < |specs| && Unplaceable(specs, sep, v, specs[j]);
      TargetFails(specs, sep, v, specs[j]);
      FirstMissingExists(w.registry, specs, sep, v, j);
      var k: nat :| k <= j && FirstMissing(w.registry, specs, sep, v, k);
      BuildFailsAt(specs, sep, v, k);
      assert 0 <= k < |specs| && Unplaceable(specs, sep, v, specs[k])
        && (forall i | 0 <= i < k :: !Unplaceable(specs, sep, v, specs[i]))
        && BuildTree(specs, sep, v).error == MissingDirectory(AttachKey(specs[k], sep));
    } else {
      forall i | 0 <= i < |specs| ensures AttachTarget(w.registry, specs[i], sep, v).Success? {
        TargetFails(specs, sep, v, specs[i]);
      }
      DeriveAllKeys(specs, sep, v, "/");
      FinishSucceeds(w, specs, sep, v);
    }
  }

  /** The build throws at the first spec without a directory, which is the first unplaceable one. */
  lemma BuildFailsAt(specs: seq<Spec>, sep: string, v: Variant, k: nat)
    requires FirstMissing(WiredState(specs, sep, v).registry, specs, sep, v, k)
    ensures BuildTree(specs, sep, v) == Failure(MissingDirectory(AttachKey(specs[k], sep)))
    ensures Unplaceable(specs, sep, v, specs[k]) && forall i | 0 <= i < k :: !Unplaceable(specs, sep, v, specs[i])
  {
    FinishFails(WiredState(specs, sep, v), specs, sep, v, k);
    TargetFails(specs, sep, v, specs[k]);
    forall i | 0 <= i < k ensures !Unplaceable(specs, sep, v, specs[i]) {
      TargetFails(specs, sep, v, specs[i]);
    }
  }

  /**
   * A spec whose leaf equals its whole directory path while the spec is not that
   * leaf alone, such as "a/a": src/tree.ts skips it while deriving but does not
   * put it at the root.
   */
  predicate SelfNamed(spec: Spec, sep: string) {
    var parts := SplitIntoParts(spec.relative, sep);
    parts.path == parts.name && spec.relative != parts.name
  }

  /** In src/tree.ts only self-named specs can make the build throw. */
  lemma BuildSucceedsCurrent(specs: seq<Spec>, sep: string)
    requires forall i | 0 <= i < |specs| :: !SelfNamed(specs[i], sep)
    ensures BuildTree(specs, sep, Current).Success?
  {
    forall j | 0 <= j < |specs| ensures !Unplaceable(specs, sep, Current, specs[j]) {
      var spec := specs[j];
      var path := SplitIntoParts(spec.relative, sep).path;
      if !AttachesToRoot(spec, sep, Current) && AttachKey(spec, sep) != "/" {
        JoinSplit(path, sep);
        DerivesOwnPath(spec, sep, Current);
        SomeSpecDerivesAt(specs, sep, Current, AttachKey(spec, sep), j);
      }
    }
    BuildFailure(specs, sep, Current);
  }

  /** A separator-free, non-empty `x` is not the root key "/". */
  lemma NotRootKey(x: string)
    requires x != "" && '/' !in x
    ensures !Contains(x, "/") && x != "/"
  {
    ContainsChar(x, '/');
    assert ['/'] == "/";
    assert x[0] != '/';
  }

  /** A lone self-named spec `x/x` makes src/tree.ts throw, naming the directory `x`. */
  lemma SelfNamedThrows(spec: Spec, x: string)
    requires x != "" && '/' !in x && spec.relative == x + "/" + x
    ensures BuildTree([spec], "/", Current) == Failure(MissingDirectory(x))
  {
    NotRootKey(x);
    SplitIntoPartsOfJoin(x, "/", x);
    assert SplitIntoParts(spec.relative, "/") == Parts(x, x);
    assert [spec][..0] == [];
    assert !SomeSpecDerives([spec], "/", Current, x);
    assert Unplaceable([spec], "/", Current, spec);
    BuildFailure([spec], "/", Current);
  }

  /** A lone "a/a" makes src/tree.ts throw, naming the directory "a". */
  lemma SelfNamedSpecThrows(spec: Spec)
    requires spec.relative == "a/a"
    ensures BuildTree([spec], "/", Current) == Failure(MissingDirectory("a"))
  {
    assert spec.relative == "a" + "/" + "a";
    SelfNamedThrows(spec, "a");
  }

  /**
   * In src/tree.spec.ts a lone spec one directory deep, `a/leaf`, makes the build
   * throw: its one-segment path counts as root level while deriving, but not
   * while attaching.
   */
  lemma EarlyLoneShallowThrows(spec: Spec, a: string, leaf: string)
    requires a != "" && '/' !in a && '/' !in leaf && spec.relative == a + "/" + leaf
    ensures BuildTree([spec], "/", Early) == Failure(MissingDirectory(a))
  {
    NotRootKey(a);
    ContainsChar(leaf, '/');
    assert ['/'] == "/";
    SplitIntoPartsOfJoin(a, "/", leaf);
    SplitSingle(a, "/");
    var parts := SplitIntoParts(spec.relative, "/");
    assert parts == Parts(leaf, a);
    assert Split(parts.path, "/") == [a];
    assert [spec][..0] == [];
    assert !SomeSpecDerives([spec], "/", Early, a);
    assert Unplaceable([spec], "/", Early, spec);
    BuildFailure([spec], "/", Early);
  }

  /** "cypress/foo.cy.ts" alone makes src/tree.spec.ts throw, naming the directory "cypress". */
  lemma EarlyLoneShallowSpecThrows(spec: Spec)
    requires spec.relative == "cypress/foo.cy.ts"
    ensures BuildTree([spec], "/", Early) == Failure(MissingDirectory("cypress"))
  {
    assert spec.relative == "cypress" + "/" + "foo.cy.ts";
    EarlyLoneShallowThrows(spec, "cypress", "foo.cy.ts");
  }

  // ---------------------------------------------------------------------------
  // The returned tree.

  /**
   * The returned root is the directory registered under "/": a directory with path
   * "/" that is not collapsed. When no spec registers "/" itself, it is the root
   * created first: named "/", without a parent.
   */
  lemma BuildRoot(specs: seq<Spec>, sep: string, v: Variant, t: SpecTree)
    requires BuildTree(specs, sep, v) == Success(t)
    ensures && "/" in t.registry && t.root == t.registry["/"] && t.root < |t.nodes|
            && t.nodes[t.root].Directory? && t.nodes[t.root].relative == "/" && !t.nodes[t.root].collapsed
    ensures !SomeSpecDerives(specs, sep, v, "/") ==>
      t.root == RootId && t.nodes[t.root] == RootNode.(children := t.nodes[t.root].children)
  {
    var d := DeriveAll(specs, sep, v);
    FinishSuccess(WiredState(specs, sep, v), specs, sep, v, t);
    DeriveAllShaped(specs, sep, v);
    var r := d.registry["/"];
    if r != RootId { assert DirectoryShaped(d.nodes, r, sep); }
    BuildKeepsDirectory(specs, sep, v, t, r);
    if !SomeSpecDerives(specs, sep, v, "/") {
      DeriveAllRootEntry(specs, sep, v);
    }
  }

  /**
   * The returned map: its keys are "/" and the segment prefixes of the processed
   * specs that are not skipped; the directory under a key has that key as its
   * path, is not collapsed, and (for a one-character separator, below the root)
   * is named after the key's last segment.
   */
  lemma BuildRegistry(specs: seq<Spec>, sep: string, v: Variant, t: SpecTree, key: string)
    requires BuildTree(specs, sep, v) == Success(t)
    ensures key in t.registry <==> key == "/" || SomeSpecDerives(specs, sep, v, key)
    ensures key in t.registry ==>
      && t.registry[key] < DirectoryCount(specs, sep, v) && t.registry[key] < |t.nodes|
      && t.nodes[t.registry[key]].Directory?
      && t.nodes[t.registry[key]].relative == key && !t.nodes[t.registry[key]].collapsed
      && (|sep| == 1 && t.registry[key] != RootId ==> t.nodes[t.registry[key]].name == SplitIntoParts(key, sep).name)
  {
    var d := DeriveAll(specs, sep, v);
    FinishSuccess(WiredState(specs, sep, v), specs, sep, v, t);
    DeriveAllKeys(specs, sep, v, key);
    DeriveAllShaped(specs, sep, v);
    if key in d.registry {
      var r := d.registry[key];
      BuildKeepsDirectory(specs, sep, v, t, r);
      if r != RootId {
        assert DirectoryShaped(d.nodes, r, sep);
        if |sep| == 1 { NameIsLeaf(d, sep, r); }
      }
    }
  }

  /** The directory the attach loop picks for a spec, as it stands after derivation. */
  lemma TargetDirectory(specs: seq<Spec>, sep: string, v: Variant, spec: Spec)
    requires AttachTarget(WiredState(specs, sep, v).registry, spec, sep, v).Success?
    ensures var p := AttachTarget(WiredState(specs, sep, v).registry, spec, sep, v).value;
      var d := DeriveAll(specs, sep, v);
      && p < |d.nodes| && d.nodes[p].Directory?
      && (AttachesToRoot(spec, sep, v) ==> p == RootId)
      && d.nodes[p].relative == (if AttachesToRoot(spec, sep, v) then "/" else AttachKey(spec, sep))
  {
    DeriveAllShaped(specs, sep, v);
  }

  /** The directory a processed spec's file is attached to (the root when the build throws on it). */
  ghost function FileParent(specs: seq<Spec>, sep: string, v: Variant, spec: Spec): NodeId {
    match AttachTarget(WiredState(specs, sep, v).registry, spec, sep, v)
    case Success(p) => p
    case Failure(_) => RootId
  }

  /**
   * Every processed spec `j` yields exactly one file node, the `j`-th after the
   * directories: named after the spec's leaf, holding the spec, and pointing at
   * the directory the spec is attached to.
   */
  lemma BuildFile(specs: seq<Spec>, sep: string, v: Variant, t: SpecTree, j: nat)
    requires BuildTree(specs, sep, v) == Success(t) && j < |specs|
    ensures |t.nodes| == DirectoryCount(specs, sep, v) + |specs|
    ensures t.nodes[DirectoryCount(specs, sep, v) + j] ==
      File(SplitIntoParts(specs[j].relative, sep).name, specs[j], FileParent(specs, sep, v, specs[j]))
  {
    var w := WiredState(specs, sep, v);
    WiredCount(specs, sep, v);
    FinishFile(w, specs, sep, v, t, DirectoryCount(specs, sep, v), j);
    assert FileParent(specs, sep, v, specs[j]) == AttachTarget(w.registry, specs[j], sep, v).value;
  }

  /**
   * The directory spec `j` is attached to holds its file node among its children;
   * it is the root for a root-level spec, and otherwise the directory whose path is
   * the spec's path ("/" for an empty path).
   */
  lemma BuildFileParent(specs: seq<Spec>, sep: string, v: Variant, t: SpecTree, j: nat)
    requires BuildTree(specs, sep, v) == Success(t) && j < |specs|
    ensures FileParent(specs, sep, v, specs[j]) < DirectoryCount(specs, sep, v)
    ensures DirectoryCount(specs, sep, v) + j < |t.nodes|
    ensures t.nodes[FileParent(specs, sep, v, specs[j])].Directory?
    ensures DirectoryCount(specs, sep, v) + j in t.nodes[FileParent(specs, sep, v, specs[j])].children
    ensures AttachesToRoot(specs[j], sep, v) ==> FileParent(specs, sep, v, specs[j]) == RootId
    ensures var p := FileParent(specs, sep, v, specs[j]);
      p < |t.nodes| &&
      t.nodes[p].relative == (if AttachesToRoot(specs[j], sep, v) then "/" else AttachKey(specs[j], sep))
  {
    var w := WiredState(specs, sep, v);
    var d := DeriveAll(specs, sep, v);
    WiredCount(specs, sep, v);
    FinishTargetHolds(w, specs, sep, v, t, DirectoryCount(specs, sep, v), j);
    var p := AttachTarget(w.registry, specs[j], sep, v).value;
    assert p == FileParent(specs, sep, v, specs[j]);
    TargetDirectory(specs, sep, v, specs[j]);
    BuildKeepsDirectory(specs, sep, v, t, p);
    assert t.nodes[p].relative == d.nodes[p].relative;
  }

  /** A directory the wiring pass put under directory `i`, as it stands after derivation. */
  lemma WiredChildLink(specs: seq<Spec>, sep: string, v: Variant, i: nat, x: NodeId)
    requires i < DirectoryCount(specs, sep, v)
    requires x in ChildrenOf(WiredState(specs, sep, v).nodes[i])
    ensures var d := DeriveAll(specs, sep, v);
      && x < |d.nodes| && d.nodes[x].Directory? && d.nodes[x].parent.Some?
      && d.nodes[x].parent.value < |d.nodes| && d.nodes[d.nodes[x].parent.value].Directory?
      && d.nodes[i].Directory? && d.nodes[i].relative == WireKey(d.nodes[d.nodes[x].parent.value], v)
    ensures var d := DeriveAll(specs, sep, v);
      v == Current ==>
        || d.nodes[x].relative == d.nodes[i].relative + sep + d.nodes[x].name
        || (d.nodes[x].relative == d.nodes[x].name && (d.nodes[i].relative == "/" || d.nodes[i].relative == ""))
  {
    var d := DeriveAll(specs, sep, v);
    DerivedReady(specs, sep, v);
    if i != RootId { assert DirectoryShaped(d.nodes, i, sep); }
    WiredChild(d, v, i, x);
    if x != RootId { assert DirectoryShaped(d.nodes, x, sep); }
    if v == Current {
      WiredLinkedByPath(d, sep, i, x);
    }
  }

  /** A child of directory `i` in the returned tree was wired under it or attached to it. */
  lemma BuildChildCases(specs: seq<Spec>, sep: string, v: Variant, t: SpecTree, i: nat, x: NodeId)
    requires BuildTree(specs, sep, v) == Success(t) && i < DirectoryCount(specs, sep, v) && i < |t.nodes|
    requires x in ChildrenOf(t.nodes[i])
    ensures var w := WiredState(specs, sep, v);
      || x in ChildrenOf(w.nodes[i])
      || (exists j :: 0 <= j < |specs| && AttachTarget(w.registry, specs[j], sep, v) == Success(i)
                      && x == DirectoryCount(specs, sep, v) + j)
  {
    BuildKeepsDirectory(specs, sep, v, t, i);
    FinishKeeps(WiredState(specs, sep, v), specs, sep, v, t, i);
  }

  /** A directory of the wired state stays a directory, and its children are all derived directories. */
  lemma WiredDirectory(specs: seq<Spec>, sep: string, v: Variant, i: nat)
    requires i < DirectoryCount(specs, sep, v)
    ensures WiredState(specs, sep, v).nodes[i].Directory?
    ensures forall x | x in ChildrenOf(WiredState(specs, sep, v).nodes[i]) :: x < DirectoryCount(specs, sep, v)
  {
    var d := DeriveAll(specs, sep, v);
    DerivedReady(specs, sep, v);
    WiredKeepsSkeleton(d, v, i);
    forall x | x in ChildrenOf(WiredState(specs, sep, v).nodes[i]) ensures x < DirectoryCount(specs, sep, v) {
      WiredChildLink(specs, sep, v, i, x);
    }
  }

  /** A child of directory `i` in the returned tree beyond the directories is the file of a spec attached to `i`. */
  lemma BuildAttachedChild(specs: seq<Spec>, sep: string, v: Variant, t: SpecTree, i: nat, x: NodeId)
    requires BuildTree(specs, sep, v) == Success(t) && i < DirectoryCount(specs, sep, v) && i < |t.nodes|
    requires x in ChildrenOf(t.nodes[i]) && DirectoryCount(specs, sep, v) <= x
    ensures x - DirectoryCount(specs, sep, v) < |specs|
    ensures AttachTarget(WiredState(specs, sep, v).registry, specs[x - DirectoryCount(specs, sep, v)], sep, v) == Success(i)
  {
    WiredDirectory(specs, sep, v, i);
    WiredCount(specs, sep, v);
    FinishNewChild(WiredState(specs, sep, v), specs, sep, v, t, DirectoryCount(specs, sep, v), i, x);
  }

  /** A file child of directory `i` in the returned tree is the file node of a processed spec and points back at `i`. */
  lemma BuildChildFile(specs: seq<Spec>, sep: string, v: Variant, t: SpecTree, i: nat, x: NodeId)
    requires BuildTree(specs, sep, v) == Success(t) && i < DirectoryCount(specs, sep, v) && i < |t.nodes|
    requires x in ChildrenOf(t.nodes[i]) && DirectoryCount(specs, sep, v) <= x
    ensures var n := DirectoryCount(specs, sep, v);
      && x < |t.nodes| && |t.nodes| == n + |specs|
      && t.nodes[x] == File(SplitIntoParts(specs[x - n].relative, sep).name, specs[x - n], i)
  {
    var w := WiredState(specs, sep, v);
    var n := DirectoryCount(specs, sep, v);
    BuildAttachedChild(specs, sep, v, t, i, x);
    WiredCount(specs, sep, v);
    var j := x - n;
    FinishFile(w, specs, sep, v, t, n, j);
    assert AttachTarget(w.registry, specs[j], sep, v) == Success(i);
    assert t.nodes[n + j] == File(SplitIntoParts(specs[j].relative, sep).name, specs[j], i);
  }

  /**
   * A directory child of directory `i` in the returned tree has a parent whose
   * lookup key (its path in src/tree.ts, its name in src/tree.spec.ts) is `i`'s
   * path, and in src/tree.ts its own path extends `i`'s path by the separator and
   * its name, or it is a first segment under "/" or "".
   */
  lemma BuildChildDirectory(specs: seq<Spec>, sep: string, v: Variant, t: SpecTree, i: nat, x: NodeId)
    requires BuildTree(specs, sep, v) == Success(t) && i < DirectoryCount(specs, sep, v) && i < |t.nodes|
    requires x in ChildrenOf(t.nodes[i]) && x < DirectoryCount(specs, sep, v)
    ensures var n := DirectoryCount(specs, sep, v);
      && x < |t.nodes| && t.nodes[i].Directory? && t.nodes[x].Directory? && t.nodes[x].parent.Some?
      && t.nodes[x].parent.value < n && t.nodes[t.nodes[x].parent.value].Directory?
      && t.nodes[i].relative == WireKey(t.nodes[t.nodes[x].parent.value], v)
    ensures v == Current ==>
      || t.nodes[x].relative == t.nodes[i].relative + sep + t.nodes[x].name
      || (t.nodes[x].relative == t.nodes[x].name && (t.nodes[i].relative == "/" || t.nodes[i].relative == ""))
  {
    var w := WiredState(specs, sep, v);
    var n := DirectoryCount(specs, sep, v);
    BuildChildCases(specs, sep, v, t, i, x);
    assert x in ChildrenOf(w.nodes[i]);
    WiredChildLink(specs, sep, v, i, x);
    var p := DeriveAll(specs, sep, v).nodes[x].parent.value;
    BuildKeepsDirectory(specs, sep, v, t, i);
    BuildKeepsDirectory(specs, sep, v, t, x);
    BuildKeepsDirectory(specs, sep, v, t, p);
  }

  /** In the returned tree no node is the child of two different directories. */
  lemma BuildSingleParent(specs: seq<Spec>, sep: string, v: Variant, t: SpecTree, i1: nat, i2: nat, x: NodeId)
    requires BuildTree(specs, sep, v) == Success(t)
    requires i1 < DirectoryCount(specs, sep, v) && i2 < DirectoryCount(specs, sep, v)
    requires i1 < |t.nodes| && i2 < |t.nodes|
    requires x in ChildrenOf(t.nodes[i1]) && x in ChildrenOf(t.nodes[i2])
    ensures i1 == i2
  {
    var d := DeriveAll(specs, sep, v);
    var n := DirectoryCount(specs, sep, v);
    if x < n {
      BuildChildCases(specs, sep, v, t, i1, x);
      BuildChildCases(specs, sep, v, t, i2, x);
      DerivedReady(specs, sep, v);
      WiredSingleParent(d, sep, v, i1, i2, x);
    } else {
      BuildChildFile(specs, sep, v, t, i1, x);
      BuildChildFile(specs, sep, v, t, i2, x);
    }
  }
}
