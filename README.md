# spec-tree: a verified model of the spec-tree builder

This project models the spec-tree builder of `src/tree.ts`. The builder takes a
flat list of test-spec records, each placed by a separator-delimited `relative`
path. It builds a directory/file tree under a root directory named `"/"`. It also
models the earlier copy of the same builder that `src/tree.spec.ts` carries, and
the three vitest cases there.

The builder (`deriveSpecTree`) runs four steps:

1. **Filter.** A non-empty `search` keeps the specs whose `relative` contains it.
2. **Derive.** A loop creates a directory node for every path prefix of every spec
   that is not root-level. Each node is registered in a map keyed by the prefix.
3. **Wire.** An upward walk from every registered directory adds each node to the
   `children` of the directory registered under its parent's key.
4. **Attach.** Each spec becomes a file node in the `children` of its directory.
   When that directory is not registered, the builder throws.

Then the root is looked up under `"/"`. `getAllFileInDirectory` collects the file
leaves below a directory. `findNodeByRelativePath` searches below a tree for a
directory by path.

## How the model is laid out

- All nodes live in one arena, a `seq<Node>`, and a node's id is its position.
  The root is node 0. A directory keeps `children: set<NodeId>` and
  `parent: Option<NodeId>`. A file keeps the id of its directory. The registry
  (`map` and `dirNodes` in the source, which always receive the same updates) is
  one `map<string, NodeId>`.
- Ids keep object identity. The derivation makes a FRESH node for every prefix of
  every spec, even when the prefix is already registered. So two nodes can have
  the same `relative`. The model keeps them apart, and the proved properties
  speak of registry entries and paths, never of "the" directory for a path.
- One builder serves both copies. It takes a `Variant`: `Current` for
  `src/tree.ts`, `Early` for `src/tree.spec.ts`. The copies differ in three
  places: the skip test of the derivation loop, the root test of the attach loop,
  and the wiring key (the parent's `relative` in `Current`, its `name` in `Early`).
- Each imperative step is a method with loops. Its `ensures` ties the result to a
  fold function over the input (`DeriveAll`, `Wired`, `AttachLoop`). The
  properties are lemmas about those functions.
- String operations follow JavaScript on text inside the Basic Multilingual
  Plane: `includes`, `lastIndexOf`, `split`, `join` and `slice`, for any
  separator string. Most structural lemmas assume a
  one-character separator, such as the default `"/"`.
- The two recursive walks over `children` (`getAllFileInDirectory` and
  `findNodeByRelativePath`) take a ghost `rank` that decreases from parent to
  child. The rank covers the whole arena, so it exists exactly when no directory
  anywhere in the arena is its own descendant.

## Behaviour worth knowing

These are all proved in the model.

- A spec such as `a/a` makes `src/tree.ts` throw when no other spec registers
  `a`. Its leaf equals its directory path, so the derivation skips it. But the
  attach step does not treat it as root-level, and looks `a` up. A lone `a/a`
  therefore throws (`Build.SelfNamedSpecThrows`), while `a/a` with `a/b` builds,
  because `a/b` registers `a`. The build throws exactly when some spec finds no
  registered directory (`Build.BuildFailure`). An input with no spec of this kind
  always builds (`Build.BuildSucceedsCurrent`).
- In `src/tree.spec.ts`, a lone spec one directory deep, such as
  `cypress/foo.cy.ts`, throws for a similar reason
  (`Build.EarlyLoneShallowSpecThrows`).
- With the "several nested specs" input, the earlier copy derives `cypress` and
  `cypress/e2e` twice. It also leaves `cypress/e2e/bar` out of every `children`
  set, because the wiring looks the parent up by its name `e2e`, which is not a
  key (`SpecCases.SeveralSpecTree`). The test still passes: it only inspects
  `cypress`.
- The "could not find root node" throw can never happen
  (`Build.BuildFailure`).
- A directory path can appear twice in the returned tree, and one of the two
  copies can be empty. For specs `c/a/x` and `c/b/y`, `src/tree.ts` derives `c`
  once per spec. The registry keeps the second node for `c`, but the upward walk
  from `c/a` still reaches the first, so both are children of the root. The first
  has no children and no file below it (`Shadow.DuplicateDirectories`). The code
  keys both `map` and `dirNodes` by path (src/tree.ts:91-95, 142-143), and its
  comment at src/tree.ts:115-117 expects the parent directory to already exist
  when a prefix comes round again. Both point at one node per directory path.
  The derivation loop still makes a fresh node every time, and the model follows
  the loop.
- For well-formed specs, `src/tree.ts` does build a proper tree. Well-formed means
  every directory segment is neither empty nor `"/"`, and no spec's leaf equals
  its directory path. The build does not throw, and no directory lies below
  itself. The files that `getAllFileInDirectory` finds below the root are
  exactly one file node per processed spec, holding that spec
  (`Complete.Completeness`).

## Model

| member | source | states |
|---|---|---|
| `Paths.Includes` | src/tree.ts:78 | `includes` is true exactly when the substring occurs somewhere in the string |
| `Paths.LastIndexOf` | src/tree.ts:46 | `lastIndexOf` is non-negative exactly when the separator occurs; it then starts an occurrence, and no later occurrence exists |
| `Paths.SplitIntoPartsSpec` | src/tree.ts:38-51 | of `SplitIntoParts`, the model of `splitIntoParts`: with no separator, name and path are both the input; otherwise path + separator + name is the input, and the name holds no separator |
| `Paths.SplitIntoPartsOfJoin` | src/tree.spec.ts:65-78 | splitting `a + sep + b`, where `b` holds no separator, gives back name `b` and path `a` |
| `Paths.MultiCharSeparatorKeepsTail` | src/tree.ts:46-48 | with a two-character separator the name keeps the separator's second character, since the cut is one character past the separator's start |
| `Paths.EmptySeparatorSplit` | src/tree.ts:42-50 | with the empty separator the name is empty and the path is the whole input |
| `Paths.JoinSplit` | src/tree.ts:102-113 | `Split` and `Join` model `split` and `join` (`Chars` is `split("")`): `split` then `join` with the same separator gives back the input; a non-empty separator yields at least one piece |
| `Paths.SplitJoin` | src/tree.ts:102-113 | for a one-character separator, `split` undoes `join` of separator-free pieces |
| `Paths.SplitPiecesFree` | src/tree.ts:102 | no piece of a split holds the separator |
| `Paths.SplitSingle` | src/tree.spec.ts:123 | a split has exactly one piece, the input itself, exactly when the separator is absent |
| `TreeModel.RootLevelSpecCases` | src/tree.ts:64-66 | `IsRootLevelSpec`, the test on the split halves holds exactly when the path has no separator, or is some separator-free `x`, the separator and `x` again |
| `TreeModel.RootLevelPartsCases` | src/tree.spec.ts:91-93 | `IsRootLevelParts`, the test `parts.length === 1 && path === parts[0]` on `path.split(sep)` holds exactly when the path has no separator |
| `TreeModel.FilterDirectoryNodes` | src/tree.ts:57-61 | `.filter(filterDirectoryNodes)`, with `IsDirectoryNode` as the test, keeps exactly the directory ids of the list |
| `TreeModel.FilterFileNodes` | src/tree.ts:53-55 | `.filter(filterFileNodes)`, with `IsFileNode` as the test, keeps exactly the file ids of the list |
| `TreeModel.FilterDirectoryNodesAppend` | src/tree.ts:57-61 | the directory filter keeps input order and every occurrence: it distributes over concatenation |
| `TreeModel.FilterDirectoryNodesSingle` | src/tree.ts:57-61 | a one-id list keeps its id exactly when the node is a directory |
| `TreeModel.FilterFileNodesAppend` | src/tree.ts:53-55 | the file filter keeps input order and every occurrence: it distributes over concatenation |
| `TreeModel.FilterFileNodesSingle` | src/tree.ts:53-55 | a one-id list keeps its id exactly when the node is a file |
| `TreeModel.FilterPartition` | src/tree.ts:53-61 | every id is kept by exactly one of the two filters, so their lengths add up to the input's |
| `Specs.CreateSpec` | src/tree.ts:199-212 | the created spec's `name` equals its `relative`, `absolute` is `"/"` before it, and both base and file name are the given name |
| `Specs.Matching` | src/tree.ts:77-78 | every kept spec's `relative` contains the search, and no more specs are kept than given |
| `Specs.MatchingCount` | src/tree.ts:77-78 | each matching spec is kept as often as the input holds it, and no other spec is kept |
| `Specs.MatchingAppend` | src/tree.ts:77-78 | the filter keeps input order: it distributes over concatenation, and keeps a single spec exactly when it matches |
| `Specs.FilterSpecs` | src/tree.ts:75-79 | an omitted or empty search keeps the list unchanged; a non-empty one keeps exactly the specs whose `relative` contains it |
| `Specs.CreateSpecRoundTrip` | src/tree.ts:199-211 | for a non-empty directory and a name without `/`, splitting the created `relative` gives name `name.cy.ts` and path `p` |
| `Specs.CreateSpecAtRoot` | src/tree.ts:199-211 | with an empty directory the created `relative` has no separator and splits into itself twice |
| `Derive.DeriveDirectories` | src/tree.ts:97-145 | the derivation loop computes the fold `DeriveAll`, which starts from `InitialBuilder` (the root, registered under `"/"`, as at src/tree.ts:81-95), and keeps the shape invariant |
| `Derive.DeriveSegments` | src/tree.ts:111-144 | the inner loop, one `AddDirectory` step per segment, adds one fresh directory per segment prefix, registered under the prefix, parented by the entry for the shorter prefix or the root |
| `Derive.DeriveAllShaped` | src/tree.ts:111-144 | after derivation every non-root node is a fresh directory whose path is its parent's path, the separator and its name (or just its name under the root); the node under each key has that key as its path |
| `Derive.DeriveAllKeys` | src/tree.ts:98-145 | a key is registered exactly when it is `"/"` or a segment prefix of a spec that is not skipped; skipped specs add nothing |
| `Derive.DeriveAllRootEntry` | src/tree.ts:94-95 | unless some spec registers `"/"` itself, the entry under `"/"` is still the root |
| `Derive.DerivesOwnPath` | src/tree.ts:111-143 | a spec that is not skipped registers its whole directory path |
| `Derive.NameIsLeaf` | src/tree.ts:133-140 | each derived directory's name is the leaf segment of its path |
| `Wire.AssignUpward` | src/tree.ts:147-152 | the recursive walk adds every node on the parent chain to the children of the directory registered under its parent's key |
| `Wire.Wired` | src/tree.ts:147-159 | the wiring pass adds no node and changes no registry entry; what it adds to `children` is stated by `WiredAdoptsRegistered` and `WiredChild` |
| `Wire.AssignDirectories` | src/tree.ts:154-159 | the wiring pass computes `Wired`: every node reached from a registered directory is added to its target's children |
| `Wire.WiredIdempotent` | src/tree.ts:147-159 | running the wiring pass again over the wired state changes nothing |
| `Wire.WiredAdoptsRegistered` | src/tree.ts:147-159 | every registered directory lands in the children of the directory registered under its parent's key |
| `Wire.WiredSingleParent` | src/tree.ts:147-159 | wiring puts each directory into at most one children set |
| `Wire.WiredLinkedByPath` | src/tree.ts:147-150 | a directory wired under `t` has a parent with `t`'s path, and its own path extends `t`'s by the separator and its name, or it is a first segment under `"/"` or `""` |
| `Wire.EarlyWiringAgrees` | src/tree.spec.ts:166-171 | when the parent's name equals its path (the root, a first segment), lookup by name and lookup by path find the same directory |
| `Attach.AttachSpec` | src/tree.ts:162-184 | one pass of the attach loop, whose directory is `AttachTarget`: a file node for the spec goes to the root, to the registered directory, or the pass throws |
| `Attach.AttachLoop` | src/tree.ts:161-185 | a successful attach loop adds exactly one node per spec and leaves the registry unchanged |
| `Attach.AttachFiles` | src/tree.ts:161-185 | the attach loop computes `AttachLoop`, stopping at the first throw |
| `Attach.FinishFails` | src/tree.ts:170-174 | the build throws the lookup error of the first spec without a directory |
| `Attach.FinishSucceeds` | src/tree.ts:161-196 | when every spec has a directory and `"/"` is registered, the attach step and root lookup succeed |
| `Build.BuildSpecTree` | src/tree.spec.ts:95-216 | the filter-less builder runs derive, wire, attach and the root lookup, and returns `BuildTree` |
| `Build.DeriveSpecTree` | src/tree.ts:68-197 | `deriveSpecTree` uses separator `"/"` unless given one, filters by a non-empty search, and returns `BuildTree` of the filtered specs |
| `Build.BuildFailure` | src/tree.ts:161-191 | the build throws exactly when some spec is unplaceable, and then reports the first such spec's path; the root-lookup throw never happens |
| `Build.BuildSucceedsCurrent` | src/tree.ts:98-174 | in `src/tree.ts`, only a spec whose leaf equals its directory path (and is not the leaf alone) can make the build throw |
| `Build.SelfNamedThrows` | src/tree.ts:105-174 | a lone spec `x/x` makes `src/tree.ts` throw, naming directory `x` |
| `Build.SelfNamedSpecThrows` | src/tree.ts:170-174 | a lone spec `a/a` makes `src/tree.ts` throw, naming directory `a` |
| `Build.EarlyLoneShallowThrows` | src/tree.spec.ts:126-193 | in `src/tree.spec.ts` a lone spec `a/leaf` throws, naming directory `a` |
| `Build.EarlyLoneShallowSpecThrows` | src/tree.spec.ts:185-193 | a lone `cypress/foo.cy.ts` makes `src/tree.spec.ts` throw, naming directory `cypress` |
| `Build.BuildRoot` | src/tree.ts:187-196 | the returned root is the directory registered under `"/"`, with path `"/"` and not collapsed; unless a spec registers `"/"`, it is the root created first, named `"/"`, without a parent |
| `Build.BuildRegistry` | src/tree.ts:98-145 | the returned map's keys are `"/"` and the segment prefixes of the specs that are not skipped; the directory under a key has that path, is not collapsed, and is named after the key's last segment |
| `Build.BuildFile` | src/tree.ts:161-185 | every processed spec yields exactly one file node, named after its leaf, holding the spec, pointing at its directory |
| `Build.BuildFileParent` | src/tree.ts:162-184 | each spec's file is among the children of its directory: the root for a root-level spec, else the directory whose path is the spec's path (`"/"` for an empty one) |
| `Build.BuildChildFile` | src/tree.ts:176-184 | a file child of a directory is the file node of a processed spec and points back at that directory |
| `Build.BuildChildDirectory` | src/tree.ts:147-159 | a directory child of a directory has a parent whose lookup key is that directory's path, and (in `src/tree.ts`) extends its path by one segment |
| `Build.BuildSingleParent` | src/tree.ts:147-185 | in the returned tree no node is the child of two different directories |
| `Complete.DeriveAllClean` | src/tree.ts:98-145 | when every spec's directory segments are neither empty nor `"/"`, no derived directory has the path `""` or `"/"` |
| `Complete.DerivedRootAlone` | src/tree.ts:91-145 | for well-formed specs the entry under `"/"` is still the root, no key is `""`, and every derived directory has a proper path |
| `Complete.BuiltLayout` | src/tree.ts:161-185 | the returned arena holds the derived directories, then one file node per processed spec holding that spec, in order |
| `Complete.ChildRank` | src/tree.ts:147-185 | for well-formed specs every child of a directory has a lower `TreeRank` than the directory |
| `Complete.TreeRanked` | src/tree.ts:147-185 | for well-formed specs the returned tree admits the rank `TreeRank`, so no directory lies below itself and the walks over `children` end |
| `Complete.RegistryBelowRoot` | src/tree.ts:147-159 | for well-formed specs, every file below the directory registered under any key is also below the root |
| `Complete.FileBelowRoot` | src/tree.ts:161-185 | for well-formed specs the file node of every processed spec is found below the root |
| `Complete.RootFiles` | src/tree.ts:187-196 | for well-formed specs the returned root is node 0, and the files below it are exactly the file nodes |
| `Complete.Completeness` | src/tree.ts:68-197 | for well-formed specs the build does not throw, the tree is ranked, and the files below the root are exactly one node per processed spec, holding that spec, in input order |
| `Shadow.ShadowedChildless` | src/tree.ts:133-143 | a derived directory that no key maps to any more gains no children from the wiring pass or the attach loop |
| `Shadow.DuplicateDirectories` | src/tree.ts:111-159 | for specs `c/a/x` and `c/b/y` the root has two different directory children with path `c`; the first has no children and no file below it |
| `Collect.WalkFiles` | src/tree.ts:244-251 | the inner walk appends exactly the file nodes below the node, keeping what was collected before |
| `Collect.FilesBelow` | src/tree.ts:244-251 | everything below a node that `walk` collects is a file node of the arena |
| `Collect.GetAllFileInDirectory` | src/tree.ts:241-256 | the result holds only file nodes, exactly those below the directory; for a directory with no subdirectories, exactly its children, each once |
| `Collect.FilesBelowReachable` | src/tree.ts:241-256 | the files below a directory are exactly the file nodes reachable from it through `children` |
| `Find.FirstMatch` | src/tree.ts:216 | `find` returns the first directory whose path matches, or reports none |
| `Find.WalkSpec` | src/tree.ts:215-230 | of `Walk` and `WalkEach`, the model of `walk` and its `.map(...).flat()`: every node `walk` returns is a matching directory reached from the list, and it returns nothing exactly when no such directory exists |
| `Find.FindNodeSpec` | src/tree.ts:214-239 | `FindNodeByRelativePath`, the model of `findNodeByRelativePath`, returns a matching directory strictly below the tree, or nothing exactly when none exists; the throw is never reached |
| `SpecCases.NestedTree` | src/tree.spec.ts:226-257 | one spec `a/b/leaf` builds the chain root → `a` → `a/b` → file `leaf` |
| `SpecCases.NestedSpecTree` | src/tree.spec.ts:226-257 | "handles a nested spec": `cypress` is the root's one child, `cypress/e2e` its one child, holding `foo.cy.ts` whose parent is `cypress/e2e` |
| `SpecCases.SeveralTree` | src/tree.spec.ts:259-297 | three specs `a/l1`, `a/b/l2`, `a/b/c/l3` build the exact arena, with fresh duplicates of `a` and `a/b` |
| `SpecCases.SeveralSpecTree` | src/tree.spec.ts:259-297 | "handles several nested specs": the `cypress` under the root has the two children `e2e` and `foo.cy.ts`, and `e2e`'s parent is that `cypress` |
| `SpecCases.RootTree` | src/tree.spec.ts:299-316 | a lone separator-free spec builds a root whose one child is its file, with parent the root, in both copies |
| `SpecCases.RootSpecTree` | src/tree.spec.ts:299-316 | "handles a single spec at the root level": the root has exactly one child, the file `smoke.cy.ts`, whose parent is the root |

## Left out

- `src/App.tsx`: the Vue components, the reactive rebuild, DOM events, the collapse toggle and the JSON dump. They are presentation glue. The helpers it imports (`array`, `groupSpecTreeNodes`) are not part of this model: `src/tree.ts` does not define them.
- The `collapsedDirs` option: `deriveSpecTree` never reads it. The `collapsed` field is kept and is always `false`.
- JavaScript `Map` and `Set` iteration order: the registry is a Dafny `map` and `children` a `set`. The loops over `dirNodes.values()` and over `children` pick elements in an arbitrary order, so every proved property holds for any order.
- Exception messages: the two throws are the error values `MissingDirectory(key)` and `MissingRoot`.
- The vitest framework: the three test cases are lemmas about the exact tree built.
- The spec display fields (`absolute`, `baseName` and the rest) are carried as data; only `relative` decides placement. The `id` field that `src/tree.spec.ts` adds to its `Spec` (always `"1"`) is not modelled, because no step reads it.
- Strings are sequences of Unicode code points (Dafny `char`), while JavaScript strings are sequences of UTF-16 code units. Outside the Basic Multilingual Plane the two differ: with separator `"😀"`, JavaScript's `lastIndexOf` and `slice(idx + 1)` leave a lone surrogate at the start of the name, and `split("")` splits an astral character in two, where the model keeps it whole.
- The module-level sample specs `s0`…`s5` of both files are unused by the builder.
- Collect.GetAllFileInDirectory: the walk needs a ghost rank under which children rank lower, over EVERY node of the arena. For well-formed specs the model supplies one, `Complete.TreeRank`. The requirement excludes every arena with a cycle, even one the walk never reaches. Specs `/x` and `/y` give such an arena: the second `""` directory is its own child, but the root cannot reach it. The root holds the first `""` directory, which is empty, and the two files, so the source's walk from the root ends with both files, and the model says nothing about that input. The source recurses forever only when the walk does reach a cycle (started at that second `""` directory, say); the model does not capture that non-termination either.
- Find.FindNodeSpec: needs the same whole-arena rank, so it too says nothing about an arena with a cycle the walk cannot reach. The order in which `Array.from` lists a set is an arbitrary enumeration, so which of several matches comes first is not pinned down.
- The wiring's recursion and the attach loop's mutation of shared node objects are modelled as updates of arena entries by id; aliasing between JavaScript objects is captured by ids, not by references.
