/**
 * Step 3 of deriveSpecTree: the upward wiring pass (src/tree.ts:147-159,
 * src/tree.spec.ts:166-178). For every registered directory the recursive walk
 * climbs its chain of `parent` links to the root, adding each node on the way to
 * the children of the directory REGISTERED under its parent's key (the parent's
 * relative path in src/tree.ts, its name in src/tree.spec.ts), which need not be
 * that parent object itself.
 */
module Wire {
  import opened Wrappers
  import opened Paths
  import opened TreeModel
  import opened Derive

  /** The key wiring looks a parent up by. */
  function WireKey(n: Node, v: Variant): string
    requires n.Directory?
  {
    match v
    case Current => n.relative
    case Early => n.name
  }

  /** What the wiring pass needs of its input: parents precede children, the registry stays in the arena. */
  ghost predicate Wirable(b: Builder) {
    ParentsBefore(b.nodes) && RegistryInRange(b)
  }

  lemma ValuesInRange(b: Builder)
    requires RegistryInRange(b)
    ensures forall d | d in b.registry.Values :: d < |b.nodes|
  {
    forall d | d in b.registry.Values ensures d < |b.nodes| {
      var k :| k in b.registry && b.registry[k] == d;
    }
  }

  /** The nodes the recursive walk visits from `c`: `c` and all its ancestors through `parent`. */
  ghost function Chain(nodes: seq<Node>, c: NodeId): (r: set<NodeId>)
    requires ParentsBefore(nodes) && c < |nodes|
    ensures c in r && forall x | x in r :: x <= c
    decreases c
  {
    match nodes[c].parent
    case None => {c}
    case Some(p) => {c} + Chain(nodes, p)
  }

  /** The directory the walk adds `c` to, if the lookup of its parent's key succeeds. */
  ghost function WireTarget(b: Builder, v: Variant, c: NodeId): Option<NodeId>
    requires Wirable(b) && c < |b.nodes|
  {
    match b.nodes[c].parent
    case None => None
    case Some(p) =>
      var key := WireKey(b.nodes[p], v);
      if key in b.registry then Some(b.registry[key]) else None
  }

  /** The nodes of `s` that the walk adds to directory `t`. */
  ghost function Adopted(b: Builder, v: Variant, s: set<NodeId>, t: NodeId): set<NodeId>
    requires Wirable(b) && forall c | c in s :: c < |b.nodes|
  {
    set c | c in s && WireTarget(b, v, c) == Some(t)
  }

  /** `nodes` after every node of `s` has been added to its target's children. */
  ghost function Adopt(nodes: seq<Node>, b: Builder, v: Variant, s: set<NodeId>): (r: seq<Node>)
    requires Wirable(b) && AllDirectories(nodes) && |nodes| == |b.nodes|
    requires forall c | c in s :: c < |b.nodes|
    ensures |r| == |nodes| && AllDirectories(r)
  {
    seq(|nodes|, i requires 0 <= i < |nodes| => nodes[i].(children := nodes[i].children + Adopted(b, v, s, i)))
  }

  /** The nodes on the walks started from the directories in `ds`. */
  ghost function ReachedFrom(b: Builder, ds: set<NodeId>): (r: set<NodeId>)
    requires Wirable(b) && forall d | d in ds :: d < |b.nodes|
    ensures forall c | c in r :: c < |b.nodes|
  {
    set c, d | d in ds && c in Chain(b.nodes, d) :: c
  }

  /** The nodes on the walks started from every registered directory (`dirNodes.values()`). */
  ghost function Reached(b: Builder): (r: set<NodeId>)
    requires Wirable(b)
    ensures forall c | c in r :: c < |b.nodes|
  {
    ValuesInRange(b);
    ReachedFrom(b, b.registry.Values)
  }

  /** The state after the wiring pass: every reached node added to its target's children. */
  ghost function Wired(b: Builder, v: Variant): (r: Builder)
    requires Wirable(b)
    ensures r.registry == b.registry && |r.nodes| == |b.nodes|
  {
    Builder(Adopt(b.nodes, b, v, Reached(b)), b.registry)
  }

  // ---------------------------------------------------------------------------
  // Lemmas used by the methods.

  lemma AdoptEmpty(b: Builder, v: Variant)
    requires Wirable(b)
    ensures Adopt(b.nodes, b, v, {}) == b.nodes
  {
    var a := Adopt(b.nodes, b, v, {});
    forall i | 0 <= i < |a| ensures a[i] == b.nodes[i] {
      assert Adopted(b, v, {}, i) == {};
    }
  }

  lemma AdoptAdd(b: Builder, v: Variant, s: set<NodeId>, d: NodeId)
    requires Wirable(b) && d < |b.nodes| && forall c | c in s :: c < |b.nodes|
    ensures var a := Adopt(b.nodes, b, v, s);
      Adopt(b.nodes, b, v, s + {d}) ==
        match WireTarget(b, v, d)
        case None => a
        case Some(t) => a[t := a[t].(children := a[t].children + {d})]
  {
    var a := Adopt(b.nodes, b, v, s);
    var a' := Adopt(b.nodes, b, v, s + {d});
    forall i | 0 <= i < |b.nodes|
      ensures Adopted(b, v, s + {d}, i) ==
        Adopted(b, v, s, i) + (if WireTarget(b, v, d) == Some(i) then {d} else {})
    {
    }
    match WireTarget(b, v, d)
    case None =>
      forall i | 0 <= i < |a| ensures a'[i] == a[i] {
        assert Adopted(b, v, s + {d}, i) == Adopted(b, v, s, i);
      }
    case Some(t) =>
      var u := a[t := a[t].(children := a[t].children + {d})];
      forall i | 0 <= i < |a| ensures a'[i] == u[i] {
        if i == t {
          assert a'[i].children == a[i].children + {d};
        } else {
          assert Adopted(b, v, s + {d}, i) == Adopted(b, v, s, i);
        }
      }
  }

  lemma ReachedFromAdd(b: Builder, ds: set<NodeId>, d: NodeId)
    requires Wirable(b) && d < |b.nodes| && forall x | x in ds :: x < |b.nodes|
    ensures ReachedFrom(b, ds + {d}) == ReachedFrom(b, ds) + Chain(b.nodes, d)
  {
  }

  // ---------------------------------------------------------------------------
  // The pass itself.

  /**
   * `recursivelyAssignDirectories(node)`: while the node has a parent, add it to
   * the children of the directory registered under the parent's key (when there is
   * one) and continue with the parent.
   */
  method AssignUpward(b: Builder, v: Variant, nodes: seq<Node>, d: NodeId, ghost s: set<NodeId>)
      returns (r: seq<Node>)
    requires Wirable(b) && d < |b.nodes| && forall c | c in s :: c < |b.nodes|
    requires nodes == Adopt(b.nodes, b, v, s)
    ensures r == Adopt(b.nodes, b, v, s + Chain(b.nodes, d))
    decreases d
  {
    r := nodes;
    AdoptAdd(b, v, s, d);
    match nodes[d].parent
    case None =>
      assert s + Chain(b.nodes, d) == s + {d};
    case Some(p) =>
      var key := WireKey(nodes[p], v);
      if key in b.registry {
        var t := b.registry[key];
        r := r[t := r[t].(children := r[t].children + {d})];
      }
      r := AssignUpward(b, v, r, p, s + {d});
      assert s + {d} + Chain(b.nodes, p) == s + Chain(b.nodes, d);
  }

  /** The wiring pass: the upward walk from every registered directory. */
  method AssignDirectories(b: Builder, v: Variant) returns (r: Builder)
    requires Wirable(b)
    ensures r == Wired(b, v)
  {
    var nodes := b.nodes;
    var pending := b.registry.Values;
    AssignStart(b, v);
    while pending != {}
      invariant pending <= b.registry.Values
      invariant nodes == Adopt(b.nodes, b, v, Walked(b, pending))
      decreases |pending|
    {
      var d :| d in pending;
      AssignStep(b, pending, d);
      nodes := AssignUpward(b, v, nodes, d, Walked(b, pending));
      pending := pending - {d};
    }
    assert b.registry.Values - pending == b.registry.Values;
    r := Builder(nodes, b.registry);
  }

  /** The nodes walked once the registered directories outside `pending` are done. */
  ghost function Walked(b: Builder, pending: set<NodeId>): (r: set<NodeId>)
    requires Wirable(b)
    ensures forall c | c in r :: c < |b.nodes|
  {
    ValuesInRange(b);
    ReachedFrom(b, b.registry.Values - pending)
  }

  lemma AssignStart(b: Builder, v: Variant)
    requires Wirable(b)
    ensures Adopt(b.nodes, b, v, Walked(b, b.registry.Values)) == b.nodes
  {
    assert b.registry.Values - b.registry.Values == {};
    assert Walked(b, b.registry.Values) == {};
    AdoptEmpty(b, v);
  }

  lemma AssignStep(b: Builder, pending: set<NodeId>, d: NodeId)
    requires Wirable(b) && pending <= b.registry.Values && d in pending
    ensures d < |b.nodes|
    ensures Walked(b, pending - {d}) == Walked(b, pending) + Chain(b.nodes, d)
  {
    ValuesInRange(b);
    var done := b.registry.Values - pending;
    assert b.registry.Values - (pending - {d}) == done + {d};
    ReachedFromAdd(b, done, d);
  }

  // ---------------------------------------------------------------------------
  // Properties of the wired state.

  lemma {:induction false} ChainSameParents(n1: seq<Node>, n2: seq<Node>, c: NodeId)
    requires ParentsBefore(n1) && ParentsBefore(n2) && |n1| == |n2| && c < |n1|
    requires forall i | 0 <= i < |n1| :: n1[i].parent == n2[i].parent
    ensures Chain(n1, c) == Chain(n2, c)
    decreases c
  {
    if n1[c].parent.Some? {
      ChainSameParents(n1, n2, n1[c].parent.value);
    }
  }

  /** Wiring changes only children: every node keeps its name, path, parent and flag. */
  lemma WiredKeepsSkeleton(b: Builder, v: Variant, i: nat)
    requires Wirable(b) && i < |b.nodes|
    ensures var w := Wired(b, v).nodes[i];
      w == b.nodes[i].(children := w.children) && b.nodes[i].children <= w.children
  {
  }

  /** Two arenas with the same parents and the same registry reach the same nodes. */
  lemma ReachedSameParents(b: Builder, w: Builder)
    requires Wirable(b) && Wirable(w) && |w.nodes| == |b.nodes| && w.registry == b.registry
    requires forall i | 0 <= i < |b.nodes| :: w.nodes[i].parent == b.nodes[i].parent
    ensures Reached(w) == Reached(b)
  {
    ValuesInRange(b);
    forall c | 0 <= c < |b.nodes| ensures Chain(w.nodes, c) == Chain(b.nodes, c) {
      ChainSameParents(w.nodes, b.nodes, c);
    }
  }

  /**
   * Running the walk again over the wired state adds nothing: set insertion is
   * idempotent and the walks depend only on parents, keys and the registry.
   */
  lemma WiredIdempotent(b: Builder, v: Variant)
    requires Wirable(b)
    ensures Wirable(Wired(b, v)) && Wired(Wired(b, v), v) == Wired(b, v)
  {
    var w := Wired(b, v);
    forall i | 0 <= i < |w.nodes| ensures w.nodes[i] == b.nodes[i].(children := w.nodes[i].children) {
      WiredKeepsSkeleton(b, v, i);
    }
    assert Wirable(w);
    ReachedSameParents(b, w);
    var ww := Wired(w, v);
    forall i | 0 <= i < |w.nodes| ensures ww.nodes[i] == w.nodes[i] {
      assert Adopted(w, v, Reached(w), i) == Adopted(b, v, Reached(b), i) by {
        forall c | 0 <= c < |b.nodes| ensures WireTarget(w, v, c) == WireTarget(b, v, c) { }
      }
    }
  }

  /**
   * Every registered directory ends up among the children of the directory
   * registered under its parent's key, whenever that key is registered.
   */
  lemma WiredAdoptsRegistered(b: Builder, v: Variant, key: string)
    requires Wirable(b) && key in b.registry
    requires var c := b.registry[key];
      b.nodes[c].parent.Some? && WireKey(b.nodes[b.nodes[c].parent.value], v) in b.registry
    ensures var c := b.registry[key];
      c in Wired(b, v).nodes[b.registry[WireKey(b.nodes[b.nodes[c].parent.value], v)]].children
  {
    var c := b.registry[key];
    ValuesInRange(b);
    assert c in b.registry.Values;
    assert c in Chain(b.nodes, c);
    assert c in Reached(b);
  }

  /** A child gained in wiring was reached and has that directory as its target. */
  lemma WiredChild(b: Builder, v: Variant, t: NodeId, c: NodeId)
    requires Wirable(b) && t < |b.nodes|
    requires c in Wired(b, v).nodes[t].children && c !in b.nodes[t].children
    ensures c < |b.nodes| && c in Reached(b) && WireTarget(b, v, c) == Some(t)
  {
  }

  /**
   * In the derived state, wiring puts each directory into at most one children
   * set, so the children relation is a forest.
   */
  lemma WiredSingleParent(b: Builder, sep: string, v: Variant, t1: NodeId, t2: NodeId, c: NodeId)
    requires Shaped(b, sep) && t1 < |b.nodes| && t2 < |b.nodes|
    requires Wirable(b)
    requires c in Wired(b, v).nodes[t1].children && c in Wired(b, v).nodes[t2].children
    ensures t1 == t2
  {
    ShapedChildless(b, sep, t1);
    ShapedChildless(b, sep, t2);
    WiredChild(b, v, t1, c);
    WiredChild(b, v, t2, c);
  }

  /** Derived directories have no children yet. */
  lemma ShapedChildless(b: Builder, sep: string, t: NodeId)
    requires Shaped(b, sep) && t < |b.nodes|
    ensures b.nodes[t].Directory? && b.nodes[t].children == {}
  {
    if 1 <= t { assert DirectoryShaped(b.nodes, t, sep); }
  }

  /** The derivation's invariant gives what the wiring pass needs. */
  lemma ShapedWirable(b: Builder, sep: string)
    requires Shaped(b, sep)
    ensures Wirable(b)
  {
    forall i | 0 <= i < |b.nodes|
      ensures b.nodes[i].Directory? && (b.nodes[i].parent.Some? ==> b.nodes[i].parent.value < i)
    {
      if i >= 1 { assert DirectoryShaped(b.nodes, i, sep); }
    }
  }

  /**
   * Linkage by path in src/tree.ts: every directory wired under a directory `t`
   * had a parent whose path is `t`'s path, so its own path is `t`'s path, the
   * separator and its name, or it is a first segment under the root ("/") or
   * under the directory registered as "".
   */
  lemma WiredLinkedByPath(b: Builder, sep: string, t: NodeId, c: NodeId)
    requires Shaped(b, sep) && Wirable(b) && t < |b.nodes|
    requires c in Wired(b, Current).nodes[t].children
    ensures c < |b.nodes| && b.nodes[c].Directory? && b.nodes[t].Directory? && b.nodes[c].parent.Some?
      && b.nodes[b.nodes[c].parent.value].relative == b.nodes[t].relative
    ensures var n := b.nodes[c];
      || n.relative == b.nodes[t].relative + sep + n.name
      || (n.relative == n.name && (b.nodes[t].relative == "/" || b.nodes[t].relative == ""))
  {
    if 1 <= t { assert DirectoryShaped(b.nodes, t, sep); }
    WiredChild(b, v := Current, t := t, c := c);
    assert c != RootId;
    assert DirectoryShaped(b.nodes, c, sep);
  }

  /**
   * Where the two copies agree: when a directory's parent is the root or a first
   * segment (its name equals its path), src/tree.spec.ts's lookup by name finds the
   * same target as src/tree.ts's lookup by path.
   */
  lemma EarlyWiringAgrees(b: Builder, c: NodeId)
    requires Wirable(b) && c < |b.nodes| && b.nodes[c].parent.Some?
    requires var p := b.nodes[b.nodes[c].parent.value]; p.name == p.relative
    ensures WireTarget(b, Early, c) == WireTarget(b, Current, c)
  {
  }
}
