/**
 * The entities of src/tree.ts: spec records, directory and file nodes, and the
 * result of a build. Nodes live in one arena (`seq<Node>`) and refer to each other
 * by index, so that object identity (two distinct directory objects with the same
 * `relative`) is kept: a node's id is its position in the arena.
 */
module TreeModel {
  import opened Wrappers
  import opened Paths

  /** A test-file descriptor. Only `relative` decides where the spec lands in the tree. */
  datatype Spec = Spec(
    name: string,
    specType: string,
    absolute: string,
    baseName: string,
    fileName: string,
    specFileExtension: string,
    fileExtension: string,
    relative: string)

  /** The recognised options: the separator and the search string, each of which may be omitted. */
  datatype SpecListOptions = SpecListOptions(sep: Option<string>, search: Option<string>)

  type NodeId = nat

  /**
   * A tree vertex. A directory has a leaf `name`, its full `relative` path, an
   * optional parent and a set of children; a file wraps one spec and names its
   * directory.
   */
  datatype Node =
    | Directory(name: string, relative: string, parent: Option<NodeId>, children: set<NodeId>, collapsed: bool)
    | File(name: string, data: Spec, parentDir: NodeId)

  /** The root directory is always the first node of the arena. */
  const RootId: NodeId := 0
  const RootNode: Node := Directory("/", "/", None, {}, false)

  /** The two copies of the algorithm: src/tree.ts, and the earlier one in src/tree.spec.ts. */
  datatype Variant = Current | Early

  /** The builder's working state: the node arena and the path registry (`map`/`dirNodes`). */
  datatype Builder = Builder(nodes: seq<Node>, registry: map<string, NodeId>)

  /** What a successful build returns: the arena, the root's id and the registry. */
  datatype SpecTree = SpecTree(nodes: seq<Node>, root: NodeId, registry: map<string, NodeId>)

  /** The two throws of deriveSpecTree. */
  datatype TreeError = MissingDirectory(key: string) | MissingRoot

  /** `filterFileNodes`: the node is a file. */
  predicate IsFileNode(n: Node) {
    n.File?
  }

  /** `filterDirectoryNodes`: the node is a directory. */
  predicate IsDirectoryNode(n: Node) {
    n.Directory?
  }

  /** `ids.filter(filterFileNodes)`: the file ids of the list, in order. */
  function FilterFileNodes(nodes: seq<Node>, ids: seq<NodeId>): (r: seq<NodeId>)
    requires forall k | 0 <= k < |ids| :: ids[k] < |nodes|
    ensures |r| <= |ids|
    ensures forall x :: x in r <==> x in ids && x < |nodes| && IsFileNode(nodes[x])
    decreases |ids|
  {
    if ids == [] then []
    else (if IsFileNode(nodes[ids[0]]) then [ids[0]] else []) + FilterFileNodes(nodes, ids[1..])
  }

  /** `ids.filter(filterDirectoryNodes)`: the directory ids of the list, in order. */
  function FilterDirectoryNodes(nodes: seq<Node>, ids: seq<NodeId>): (r: seq<NodeId>)
    requires forall k | 0 <= k < |ids| :: ids[k] < |nodes|
    ensures |r| <= |ids|
    ensures forall x :: x in r <==> x in ids && x < |nodes| && IsDirectoryNode(nodes[x])
    decreases |ids|
  {
    if ids == [] then []
    else (if IsDirectoryNode(nodes[ids[0]]) then [ids[0]] else []) + FilterDirectoryNodes(nodes, ids[1..])
  }

  /**
   * The file filter keeps the input order and each occurrence: filtering a
   * concatenation filters each part (with `FilterFileNodesSingle`, order and multiplicity follow).
   */
  lemma {:induction false} FilterFileNodesAppend(nodes: seq<Node>, a: seq<NodeId>, b: seq<NodeId>)
    requires forall k | 0 <= k < |a| :: a[k] < |nodes|
    requires forall k | 0 <= k < |b| :: b[k] < |nodes|
    ensures FilterFileNodes(nodes, a + b) == FilterFileNodes(nodes, a) + FilterFileNodes(nodes, b)
    decreases |a|
  {
    if a == [] {
      assert a + b == b;
    } else {
      var h := if IsFileNode(nodes[a[0]]) then [a[0]] else [];
      assert (a + b)[1..] == a[1..] + b;
      assert (a + b)[0] == a[0];
      assert FilterFileNodes(nodes, a + b) == h + FilterFileNodes(nodes, a[1..] + b);
      assert FilterFileNodes(nodes, a) == h + FilterFileNodes(nodes, a[1..]);
      FilterFileNodesAppend(nodes, a[1..], b);
      assert h + (FilterFileNodes(nodes, a[1..]) + FilterFileNodes(nodes, b))
          == (h + FilterFileNodes(nodes, a[1..])) + FilterFileNodes(nodes, b);
    }
  }

  /** A one-id list keeps its id exactly when it is a file. */
  lemma FilterFileNodesSingle(nodes: seq<Node>, x: NodeId)
    requires x < |nodes|
    ensures FilterFileNodes(nodes, [x]) == if IsFileNode(nodes[x]) then [x] else []
  {
    assert [x][1..] == [];
  }

  /**
   * The directory filter keeps the input order and each occurrence: filtering a
   * concatenation filters each part (with `FilterDirectoryNodesSingle`, order and multiplicity follow).
   */
  lemma {:induction false} FilterDirectoryNodesAppend(nodes: seq<Node>, a: seq<NodeId>, b: seq<NodeId>)
    requires forall k | 0 <= k < |a| :: a[k] < |nodes|
    requires forall k | 0 <= k < |b| :: b[k] < |nodes|
    ensures FilterDirectoryNodes(nodes, a + b) == FilterDirectoryNodes(nodes, a) + FilterDirectoryNodes(nodes, b)
    decreases |a|
  {
    if a == [] {
      assert a + b == b;
    } else {
      var h := if IsDirectoryNode(nodes[a[0]]) then [a[0]] else [];
      assert (a + b)[1..] == a[1..] + b;
      assert (a + b)[0] == a[0];
      assert FilterDirectoryNodes(nodes, a + b) == h + FilterDirectoryNodes(nodes, a[1..] + b);
      assert FilterDirectoryNodes(nodes, a) == h + FilterDirectoryNodes(nodes, a[1..]);
      FilterDirectoryNodesAppend(nodes, a[1..], b);
      assert h + (FilterDirectoryNodes(nodes, a[1..]) + FilterDirectoryNodes(nodes, b))
          == (h + FilterDirectoryNodes(nodes, a[1..])) + FilterDirectoryNodes(nodes, b);
    }
  }

  /** A one-id list keeps its id exactly when it is a directory. */
  lemma FilterDirectoryNodesSingle(nodes: seq<Node>, x: NodeId)
    requires x < |nodes|
    ensures FilterDirectoryNodes(nodes, [x]) == if IsDirectoryNode(nodes[x]) then [x] else []
  {
    assert [x][1..] == [];
  }

  /** Each id is kept by exactly one of the two filters, so together they keep the whole list. */
  lemma {:induction false} FilterPartition(nodes: seq<Node>, ids: seq<NodeId>)
    requires forall k | 0 <= k < |ids| :: ids[k] < |nodes|
    ensures |FilterFileNodes(nodes, ids)| + |FilterDirectoryNodes(nodes, ids)| == |ids|
    decreases |ids|
  {
    if ids != [] {
      FilterPartition(nodes, ids[1..]);
    }
  }

  /** `isRootLevelSpec(path, name)` of src/tree.ts. */
  predicate IsRootLevelSpec(path: string, name: string) {
    path == name
  }

  /** `isRootLevelSpec(path, parts)` of src/tree.spec.ts. */
  predicate IsRootLevelParts(path: string, parts: seq<string>) {
    |parts| == 1 && path == parts[0]
  }

  /** Every node of the arena is a directory (the state before files are attached). */
  ghost predicate AllDirectories(nodes: seq<Node>) {
    forall i | 0 <= i < |nodes| :: nodes[i].Directory?
  }

  /** Every directory's parent comes earlier in the arena. */
  ghost predicate ParentsBefore(nodes: seq<Node>) {
    forall i | 0 <= i < |nodes| :: nodes[i].Directory? && (nodes[i].parent.Some? ==> nodes[i].parent.value < i)
  }

  /** Every registry entry names a node of the arena. */
  ghost predicate RegistryInRange(b: Builder) {
    forall k | k in b.registry :: b.registry[k] < |b.nodes|
  }

  /**
   * `rank` bounds the depth below each node: every child of a directory is in the
   * arena and has a smaller rank. The recursive walks of src/tree.ts terminate
   * on every arena that admits such a ranking. The ranking covers the whole arena,
   * so an arena in which some directory is its own descendant has none, even when
   * that directory cannot be reached from where a walk starts.
   */
  ghost predicate Ranked(nodes: seq<Node>, rank: seq<nat>) {
    |rank| == |nodes| &&
    forall i | 0 <= i < |nodes| && nodes[i].Directory? ::
      forall c | c in nodes[i].children :: c < |nodes| && rank[c] < rank[i]
  }

  // ---------------------------------------------------------------------------
  // The skip test of the derivation loop and the root test of the attach loop.

  /**
   * Whether the derivation loop skips a spec (`continue`): src/tree.ts compares
   * the split halves; src/tree.spec.ts asks whether the path splits into the
   * single piece `path`.
   */
  predicate SkipsDerivation(spec: Spec, sep: string, v: Variant) {
    var parts := SplitIntoParts(spec.relative, sep);
    match v
    case Current => IsRootLevelSpec(parts.path, parts.name)
    case Early => IsRootLevelParts(parts.path, Split(parts.path, sep))
  }

  /** The directory segments a spec contributes: `path.split(sep)`. */
  function Segments(spec: Spec, sep: string): seq<string> {
    Split(SplitIntoParts(spec.relative, sep).path, sep)
  }

  /** The registry key the attach loop looks up: the path, with "" replaced by "/" (`path ||= "/"`). */
  function AttachKey(spec: Spec, sep: string): string {
    var path := SplitIntoParts(spec.relative, sep).path;
    if path == "" then "/" else path
  }

  /** Whether the attach loop puts a spec's file straight under the root. */
  predicate AttachesToRoot(spec: Spec, sep: string, v: Variant) {
    match v
    case Current => IsRootLevelSpec(spec.relative, SplitIntoParts(spec.relative, sep).name)
    case Early => IsRootLevelParts(spec.relative, Split(AttachKey(spec, sep), sep))
  }

  // ---------------------------------------------------------------------------
  // Lemmas about the two isRootLevelSpec tests.

  /**
   * src/tree.ts's test on the split halves holds exactly when the path has no
   * separator, or when it is some separator-free `x`, the separator, and `x` again
   * (such as "a/a").
   */
  lemma RootLevelSpecCases(p: string, sep: string)
    requires |sep| == 1
    ensures var parts := SplitIntoParts(p, sep);
      IsRootLevelSpec(parts.path, parts.name) <==>
        (!Contains(p, sep) || (p == parts.name + sep + parts.name && !Contains(parts.name, sep)))
  {
    SplitIntoPartsSpec(p, sep);
    var parts := SplitIntoParts(p, sep);
    if Contains(p, sep) && p == parts.name + sep + parts.name && !Contains(parts.name, sep) {
      SplitIntoPartsOfJoin(parts.name, sep, parts.name);
    }
  }

  /**
   * src/tree.spec.ts's test `parts.length === 1 && path === parts[0]`, applied to
   * `path.split(sep)`, holds exactly when the path has no separator.
   */
  lemma RootLevelPartsCases(path: string, sep: string)
    requires sep != ""
    ensures IsRootLevelParts(path, Split(path, sep)) <==> !Contains(path, sep)
  {
    SplitSingle(path, sep);
  }
}
