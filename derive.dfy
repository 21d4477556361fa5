/**
 * Step 2 of deriveSpecTree: the directory-derivation loop (src/tree.ts:97-145,
 * src/tree.spec.ts:118-164). For every processed spec that is not skipped, every
 * left-to-right prefix of its directory segments gets a FRESH directory node,
 * registered under the prefix (overwriting an earlier entry), whose parent is the
 * node then registered under the one-shorter prefix, or the root when there is none.
 */
module Derive {
  import opened Wrappers
  import opened Paths
  import opened TreeModel

  /** The registry and arena before the loop: just the root, under "/". */
  function InitialBuilder(): Builder {
    Builder([RootNode], map["/" := RootId])
  }

  /** One inner iteration: the directory for `segs[..i + 1]`. */
  function AddDirectory(b: Builder, segs: seq<string>, sep: string, i: nat): Builder
    requires i < |segs|
  {
    var key := Prefix(segs, sep, i + 1);
    var up := Prefix(segs, sep, i);
    var parent := if up in b.registry then b.registry[up] else RootId;
    Builder(b.nodes + [Directory(segs[i], key, Some(parent), {}, false)], b.registry[key := |b.nodes|])
  }

  /** The first `k` inner iterations for one spec's segments. */
  function DeriveParts(b: Builder, segs: seq<string>, sep: string, k: nat): Builder
    requires k <= |segs|
    decreases k
  {
    if k == 0 then b else AddDirectory(DeriveParts(b, segs, sep, k - 1), segs, sep, k - 1)
  }

  /** One outer iteration. */
  function DeriveOne(b: Builder, spec: Spec, sep: string, v: Variant): Builder {
    if SkipsDerivation(spec, sep, v) then b
    else var segs := Segments(spec, sep); DeriveParts(b, segs, sep, |segs|)
  }

  /** The state after the derivation loop has run over `specs`. */
  function DeriveAll(specs: seq<Spec>, sep: string, v: Variant): Builder
    decreases |specs|
  {
    if specs == [] then InitialBuilder()
    else DeriveOne(DeriveAll(specs[..|specs| - 1], sep, v), specs[|specs| - 1], sep, v)
  }

  // ---------------------------------------------------------------------------
  // The shape of the derived state.

  /**
   * The shape of a derived non-root directory: fresh (no children, not
   * collapsed), a separator-free name, a parent earlier in the arena, and a path
   * that is either the parent's path, the separator and the name (a deeper
   * segment) or the name alone (a first segment, whose parent is the root or the
   * directory registered under "").
   */
  ghost predicate DirectoryShaped(nodes: seq<Node>, i: nat, sep: string)
    requires i < |nodes|
  {
    var n := nodes[i];
    && n.Directory? && n.children == {} && !n.collapsed
    && n.parent.Some? && n.parent.value < i
    && nodes[n.parent.value].Directory?
    && (sep != "" ==> !Contains(n.name, sep))
    && (|| nodes[n.parent.value].relative + sep + n.name == n.relative
        || (n.relative == n.name && (n.parent.value == RootId || nodes[n.parent.value].relative == "")))
  }

  /**
   * The invariant of the derivation loop: the root is first and untouched, every
   * other node is a derived directory, the node under each key has that key as
   * its path, and every node's path is a key.
   */
  ghost predicate Shaped(b: Builder, sep: string) {
    && |b.nodes| >= 1 && b.nodes[RootId] == RootNode
    && (forall i | 1 <= i < |b.nodes| :: DirectoryShaped(b.nodes, i, sep))
    && (forall k | k in b.registry :: b.registry[k] < |b.nodes| && b.nodes[b.registry[k]].Directory?
                                      && b.nodes[b.registry[k]].relative == k)
    && (forall i | 0 <= i < |b.nodes| :: b.nodes[i].Directory? && b.nodes[i].relative in b.registry)
  }

  lemma AddDirectoryShaped(b: Builder, segs: seq<string>, sep: string, i: nat)
    requires Shaped(b, sep) && i < |segs|
    requires sep != "" ==> forall x | x in segs :: !Contains(x, sep)
    requires i > 0 ==> Prefix(segs, sep, i) in b.registry
    ensures Shaped(AddDirectory(b, segs, sep, i), sep)
  {
    var r := AddDirectory(b, segs, sep, i);
    var n := |b.nodes|;
    assert segs[i] in segs;
    if i > 0 {
      PrefixStep(segs, sep, i);
    }
    assert DirectoryShaped(r.nodes, n, sep);
    forall j | 1 <= j < |r.nodes|
      ensures DirectoryShaped(r.nodes, j, sep)
    {
      if j < n {
        assert DirectoryShaped(b.nodes, j, sep);
      }
    }
  }

  lemma {:induction false} DerivePartsShaped(b: Builder, segs: seq<string>, sep: string, k: nat)
    requires Shaped(b, sep) && k <= |segs|
    requires sep != "" ==> forall x | x in segs :: !Contains(x, sep)
    ensures Shaped(DeriveParts(b, segs, sep, k), sep)
    ensures k > 0 ==> Prefix(segs, sep, k) in DeriveParts(b, segs, sep, k).registry
    decreases k
  {
    if k > 0 {
      DerivePartsShaped(b, segs, sep, k - 1);
      AddDirectoryShaped(DeriveParts(b, segs, sep, k - 1), segs, sep, k - 1);
    }
  }

  /** The derivation loop keeps the shape invariant. */
  lemma {:induction false} DeriveAllShaped(specs: seq<Spec>, sep: string, v: Variant)
    ensures Shaped(DeriveAll(specs, sep, v), sep)
    decreases |specs|
  {
    if specs != [] {
      var last := specs[|specs| - 1];
      DeriveAllShaped(specs[..|specs| - 1], sep, v);
      if !SkipsDerivation(last, sep, v) {
        var segs := Segments(last, sep);
        if sep != "" { SplitPiecesFree(SplitIntoParts(last.relative, sep).path, sep); }
        DerivePartsShaped(DeriveAll(specs[..|specs| - 1], sep, v), segs, sep, |segs|);
      }
    }
  }

  // ---------------------------------------------------------------------------
  // Which keys the registry holds.

  /** A spec registers `key`: it is not skipped and `key` is one of its segment prefixes. */
  ghost predicate DerivesKey(spec: Spec, sep: string, v: Variant, key: string) {
    && !SkipsDerivation(spec, sep, v)
    && exists k :: 1 <= k <= |Segments(spec, sep)| && key == Prefix(Segments(spec, sep), sep, k)
  }

  lemma {:induction false} DerivePartsKeys(b: Builder, segs: seq<string>, sep: string, k: nat, key: string)
    requires k <= |segs|
    ensures key in DeriveParts(b, segs, sep, k).registry <==>
      key in b.registry || exists m :: 1 <= m <= k && key == Prefix(segs, sep, m)
    decreases k
  {
    if k > 0 {
      DerivePartsKeys(b, segs, sep, k - 1, key);
    }
  }

  /** Some spec of `specs` registers `key` (checked from the last spec back). */
  ghost predicate SomeSpecDerives(specs: seq<Spec>, sep: string, v: Variant, key: string)
    decreases |specs|
  {
    && specs != []
    && (SomeSpecDerives(specs[..|specs| - 1], sep, v, key) || DerivesKey(specs[|specs| - 1], sep, v, key))
  }

  /** `SomeSpecDerives` holds exactly when one of the specs registers the key. */
  lemma {:induction false} SomeSpecDerivesAt(specs: seq<Spec>, sep: string, v: Variant, key: string, j: nat)
    requires j < |specs| && DerivesKey(specs[j], sep, v, key)
    ensures SomeSpecDerives(specs, sep, v, key)
    decreases |specs|
  {
    if j < |specs| - 1 {
      var init := specs[..|specs| - 1];
      assert init[j] == specs[j];
      SomeSpecDerivesAt(init, sep, v, key, j);
    }
  }

  lemma {:induction false} SomeSpecDerivesWitness(specs: seq<Spec>, sep: string, v: Variant, key: string)
    requires SomeSpecDerives(specs, sep, v, key)
    ensures exists j :: 0 <= j < |specs| && DerivesKey(specs[j], sep, v, key)
    decreases |specs|
  {
    var n := |specs| - 1;
    var init := specs[..n];
    if !DerivesKey(specs[n], sep, v, key) {
      SomeSpecDerivesWitness(init, sep, v, key);
      var j :| 0 <= j < |init| && DerivesKey(init[j], sep, v, key);
      assert specs[j] == init[j];
    }
  }

  lemma DeriveOneKeys(b: Builder, spec: Spec, sep: string, v: Variant, key: string)
    ensures key in DeriveOne(b, spec, sep, v).registry <==> key in b.registry || DerivesKey(spec, sep, v, key)
  {
    if !SkipsDerivation(spec, sep, v) {
      var segs := Segments(spec, sep);
      DerivePartsKeys(b, segs, sep, |segs|, key);
    }
  }

  /**
   * After the derivation loop, `key` is registered exactly when it is "/" or a
   * segment prefix of some processed spec that is not skipped; in particular a
   * skipped spec contributes no entry.
   */
  lemma {:induction false} DeriveAllKeys(specs: seq<Spec>, sep: string, v: Variant, key: string)
    ensures key in DeriveAll(specs, sep, v).registry <==> key == "/" || SomeSpecDerives(specs, sep, v, key)
    decreases |specs|
  {
    if specs != [] {
      var init := specs[..|specs| - 1];
      DeriveAllKeys(init, sep, v, key);
      DeriveOneKeys(DeriveAll(init, sep, v), specs[|specs| - 1], sep, v, key);
    }
  }

  lemma {:induction false} DerivePartsKeeps(b: Builder, segs: seq<string>, sep: string, k: nat, key: string)
    requires k <= |segs| && key in b.registry
    requires forall m | 1 <= m <= k :: key != Prefix(segs, sep, m)
    ensures key in DeriveParts(b, segs, sep, k).registry
    ensures DeriveParts(b, segs, sep, k).registry[key] == b.registry[key]
    decreases k
  {
    if k > 0 {
      DerivePartsKeeps(b, segs, sep, k - 1, key);
    }
  }

  /** Unless some processed spec registers "/" itself, the entry under "/" is still the root. */
  lemma {:induction false} DeriveAllRootEntry(specs: seq<Spec>, sep: string, v: Variant)
    requires !SomeSpecDerives(specs, sep, v, "/")
    ensures "/" in DeriveAll(specs, sep, v).registry && DeriveAll(specs, sep, v).registry["/"] == RootId
    decreases |specs|
  {
    if specs != [] {
      var init := specs[..|specs| - 1];
      var last := specs[|specs| - 1];
      DeriveAllRootEntry(init, sep, v);
      if !SkipsDerivation(last, sep, v) {
        var segs := Segments(last, sep);
        DerivePartsKeeps(DeriveAll(init, sep, v), segs, sep, |segs|, "/");
      }
    }
  }

  /**
   * A spec that is not skipped registers its whole path, provided the path has at
   * least one segment (always so for a non-empty separator).
   */
  lemma DerivesOwnPath(spec: Spec, sep: string, v: Variant)
    requires !SkipsDerivation(spec, sep, v) && |Segments(spec, sep)| >= 1
    ensures DerivesKey(spec, sep, v, SplitIntoParts(spec.relative, sep).path)
  {
    var segs := Segments(spec, sep);
    JoinSplit(SplitIntoParts(spec.relative, sep).path, sep);
    assert segs[..|segs|] == segs;
    assert SplitIntoParts(spec.relative, sep).path == Prefix(segs, sep, |segs|);
  }

  /**
   * For a one-character separator, every derived directory's name is the leaf
   * segment of its path, as `splitIntoParts` would cut it.
   */
  lemma NameIsLeaf(b: Builder, sep: string, i: nat)
    requires Shaped(b, sep) && |sep| == 1 && 1 <= i < |b.nodes|
    ensures SplitIntoParts(b.nodes[i].relative, sep).name == b.nodes[i].name
  {
    assert DirectoryShaped(b.nodes, i, sep);
    var n := b.nodes[i];
    var p := b.nodes[n.parent.value];
    if p.relative + sep + n.name == n.relative {
      SplitIntoPartsOfJoin(p.relative, sep, n.name);
    } else {
      SplitIntoPartsSpec(n.relative, sep);
    }
  }

  // ---------------------------------------------------------------------------
  // The loop itself.

  /**
   * The derivation loop: for each spec not skipped, for each segment, a fresh
   * directory under the accumulated prefix whose parent is the directory then
   * registered under the shorter prefix, or the root.
   */
  method DeriveDirectories(specs: seq<Spec>, sep: string, v: Variant) returns (b: Builder)
    ensures b == DeriveAll(specs, sep, v)
    ensures Shaped(b, sep)
  {
    var nodes := [RootNode];
    var registry: map<string, NodeId> := map["/" := RootId];
    var j := 0;
    while j < |specs|
      invariant j <= |specs|
      invariant Builder(nodes, registry) == DeriveAll(specs[..j], sep, v)
    {
      var spec := specs[j];
      var parts := SplitIntoParts(spec.relative, sep);
      var segs := Split(parts.path, sep);
      var skip := match v
        case Current => IsRootLevelSpec(parts.path, parts.name)
        case Early => IsRootLevelParts(parts.path, segs);
      if !skip {
        nodes, registry := DeriveSegments(nodes, registry, segs, sep);
      }
      DeriveAllStep(specs, sep, v, j);
      j := j + 1;
    }
    assert specs[..j] == specs;
    b := Builder(nodes, registry);
    DeriveAllShaped(specs, sep, v);
  }

  /** The inner loop over one spec's segments: one fresh directory per segment prefix. */
  method DeriveSegments(nodes0: seq<Node>, registry0: map<string, NodeId>, segs: seq<string>, sep: string)
    returns (nodes: seq<Node>, registry: map<string, NodeId>)
    ensures Builder(nodes, registry) == DeriveParts(Builder(nodes0, registry0), segs, sep, |segs|)
  {
    nodes, registry := nodes0, registry0;
    var i := 0;
    while i < |segs|
      invariant i <= |segs|
      invariant Builder(nodes, registry) == DeriveParts(Builder(nodes0, registry0), segs, sep, i)
    {
      var dirName := Join(segs[..i + 1], sep);
      var up := Join(segs[..i], sep);
      var parent := if up in registry then registry[up] else RootId;
      var node := Directory(segs[i], dirName, Some(parent), {}, false);
      registry := registry[dirName := |nodes|];
      nodes := nodes + [node];
      i := i + 1;
    }
  }

  /** The derivation loop over the first j + 1 specs is the loop over the first j, then spec j. */
  lemma DeriveAllStep(specs: seq<Spec>, sep: string, v: Variant, j: nat)
    requires j < |specs|
    ensures DeriveAll(specs[..j + 1], sep, v) == DeriveOne(DeriveAll(specs[..j], sep, v), specs[j], sep, v)
  {
    assert specs[..j + 1][..j] == specs[..j];
  }
}
