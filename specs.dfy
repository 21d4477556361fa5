/**
 * Spec construction and the search filter of src/tree.ts: `createSpec`, the
 * option defaults and `allSpecs.filter(x => x.relative.includes(search))`.
 */
module Specs {
  import opened Wrappers
  import opened Paths
  import opened TreeModel

  /** `createSpec(p, name)`: a spec named `name` under directory `p` (no directory when `p` is empty). */
  function CreateSpec(p: string, name: string): (s: Spec)
    ensures s.name == s.relative && s.absolute == "/" + s.relative
    ensures s.baseName == name && s.fileName == name
  {
    var prefix := if |p| > 0 then p + "/" else "";
    Spec(prefix + name + ".cy.ts", "integration", "/" + prefix + name + ".cy.ts", name, name,
         ".cy.ts", ".ts", prefix + name + ".cy.ts")
  }

  /** The separator in force: `options?.sep ?? "/"`. */
  function SeparatorOf(options: SpecListOptions): string {
    match options.sep
    case Some(s) => s
    case None => "/"
  }

  /** The search is applied only when it is a non-empty string (`search ? … : allSpecs`). */
  predicate SearchActive(search: Option<string>) {
    search.Some? && search.value != ""
  }

  /** The specs whose relative path contains `search`, in their original order. */
  function Matching(specs: seq<Spec>, search: string): (r: seq<Spec>)
    decreases |specs|
    ensures |r| <= |specs|
    ensures forall x | x in r :: Contains(x.relative, search)
  {
    if specs == [] then []
    else
      (if Includes(specs[0].relative, search) then [specs[0]] else []) + Matching(specs[1..], search)
  }

  /** The filter keeps every matching spec as often as the input holds it, and no other. */
  lemma {:induction false} MatchingCount(specs: seq<Spec>, search: string)
    ensures forall x :: multiset(Matching(specs, search))[x] == (if Contains(x.relative, search) then multiset(specs)[x] else 0)
    decreases |specs|
  {
    if specs != [] {
      assert specs == [specs[0]] + specs[1..];
      MatchingCount(specs[1..], search);
    }
  }

  /**
   * The filter keeps the input order: filtering a concatenation filters each
   * part, and a single spec is kept exactly when it matches.
   */
  lemma {:induction false} MatchingAppend(a: seq<Spec>, b: seq<Spec>, search: string)
    ensures Matching(a + b, search) == Matching(a, search) + Matching(b, search)
    ensures |a| == 1 ==> Matching(a, search) == if Contains(a[0].relative, search) then a else []
    decreases |a|
  {
    if a == [] {
      assert a + b == b;
    } else {
      assert (a + b)[1..] == a[1..] + b;
      assert (a + b)[0] == a[0];
      MatchingAppend(a[1..], b, search);
      if |a| == 1 {
        assert a[1..] == [];
      }
    }
  }

  /** The specs deriveSpecTree processes after its optional search filter. */
  function FilterSpecs(allSpecs: seq<Spec>, search: Option<string>): (r: seq<Spec>)
    ensures !SearchActive(search) ==> r == allSpecs
    ensures SearchActive(search) ==>
      forall x :: multiset(r)[x] == if Contains(x.relative, search.value) then multiset(allSpecs)[x] else 0
  {
    if SearchActive(search) then MatchingCount(allSpecs, search.value); Matching(allSpecs, search.value) else allSpecs
  }

  /**
   * With a non-empty directory `p` and a name without "/", splitting the created
   * spec's relative path gives back the file name `name.cy.ts` and the path `p`.
   */
  lemma CreateSpecRoundTrip(p: string, name: string)
    requires p != "" && !Contains(name, "/")
    ensures SplitIntoParts(CreateSpec(p, name).relative, "/") == Parts(name + ".cy.ts", p)
  {
    ContainsChar(name, '/');
    ContainsChar(name + ".cy.ts", '/');
    assert p + "/" + name + ".cy.ts" == p + "/" + (name + ".cy.ts");
    SplitIntoPartsOfJoin(p, "/", name + ".cy.ts");
  }

  /** With an empty directory the created spec has no separator, so it is a root-level spec. */
  lemma CreateSpecAtRoot(name: string)
    requires !Contains(name, "/")
    ensures var rel := CreateSpec("", name).relative;
      !Contains(rel, "/") && SplitIntoParts(rel, "/") == Parts(rel, rel)
  {
    ContainsChar(name, '/');
    ContainsChar(name + ".cy.ts", '/');
    assert CreateSpec("", name).relative == "" + name + ".cy.ts" == name + ".cy.ts";
  }
}
