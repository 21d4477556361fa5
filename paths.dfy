/**
 * The string operations the tree builder relies on, with JavaScript's meaning:
 * `includes`, `lastIndexOf`, `split`, `join`, and the path splitter built on them
 * (`splitIntoParts` in src/tree.ts and src/tree.spec.ts).
 */
module Paths {

  /** `sub` occurs in `s` starting at index `i`. */
  predicate OccursAt(s: string, sub: string, i: int) {
    0 <= i && i + |sub| <= |s| && s[i..i + |sub|] == sub
  }

  /** `sub` occurs somewhere in `s`. */
  ghost predicate Contains(s: string, sub: string) {
    exists i :: OccursAt(s, sub, i)
  }

  /** The first start index at or after `i` where `sub` occurs in `s`, or -1. */
  function IndexFrom(s: string, sub: string, i: nat): (r: int)
    decreases |s| - i
    ensures r == -1 || (i <= r && OccursAt(s, sub, r))
    ensures forall j :: i <= j && (r == -1 || j < r) ==> !OccursAt(s, sub, j)
  {
    if i + |sub| > |s| then -1
    else if OccursAt(s, sub, i) then i
    else IndexFrom(s, sub, i + 1)
  }

  /** JavaScript `s.includes(sub)`. */
  function Includes(s: string, sub: string): (b: bool)
    ensures b <==> Contains(s, sub)
  {
    var r := IndexFrom(s, sub, 0);
    assert r >= 0 ==> OccursAt(s, sub, r);
    r >= 0
  }

  /** The last start index at or before `i` where `sub` occurs in `s`, or -1. */
  function LastIndexBefore(s: string, sub: string, i: int): (r: int)
    decreases i + 1
    ensures r == -1 || 0 <= r <= i
    ensures r >= 0 ==> OccursAt(s, sub, r)
    ensures forall j :: r < j <= i ==> !OccursAt(s, sub, j)
  {
    if i < 0 then -1
    else if OccursAt(s, sub, i) then i
    else LastIndexBefore(s, sub, i - 1)
  }

  /** JavaScript `s.lastIndexOf(sub)`: the start of the last occurrence, or -1. */
  function LastIndexOf(s: string, sub: string): (r: int)
    ensures r >= 0 <==> Contains(s, sub)
    ensures r >= 0 ==> OccursAt(s, sub, r)
    ensures forall j :: r < j ==> !OccursAt(s, sub, j)
  {
    LastIndexBefore(s, sub, |s| - |sub|)
  }

  /** The result of `splitIntoParts`: the leaf `name` and the parent `path`. */
  datatype Parts = Parts(name: string, path: string)

  /**
   * `splitIntoParts(path, sep)`: without a separator, both halves are the whole path;
   * otherwise the text before the last separator is the path and the text from one
   * character after its start is the name (`path.slice(idx + 1)`, whatever the
   * separator's length; `slice` clamps an index past the end).
   */
  function SplitIntoParts(p: string, sep: string): Parts {
    var idx := LastIndexOf(p, sep);
    if idx < 0 then Parts(p, p)
    else Parts(p[if idx + 1 <= |p| then idx + 1 else |p|..], p[..idx])
  }

  /** JavaScript `s.split(sep)` for a non-empty separator: the pieces between occurrences. */
  function SplitOn(s: string, sep: string): (parts: seq<string>)
    requires sep != ""
    decreases |s|
  {
    var i := IndexFrom(s, sep, 0);
    if i < 0 then [s] else [s[..i]] + SplitOn(s[i + |sep|..], sep)
  }

  /** JavaScript `s.split("")`: one piece per character. */
  function Chars(s: string): (parts: seq<string>) {
    seq(|s|, i requires 0 <= i < |s| => [s[i]])
  }

  /** JavaScript `s.split(sep)`. */
  function Split(s: string, sep: string): seq<string> {
    if sep == "" then Chars(s) else SplitOn(s, sep)
  }

  /** JavaScript `parts.join(sep)`. */
  function Join(parts: seq<string>, sep: string): string
    decreases |parts|
  {
    if |parts| == 0 then ""
    else if |parts| == 1 then parts[0]
    else Join(parts[..|parts| - 1], sep) + sep + parts[|parts| - 1]
  }

  /** `Join` of the first `k` pieces: the accumulated prefix `acc.join(sep)`. */
  function Prefix(parts: seq<string>, sep: string, k: nat): string
    requires k <= |parts|
  {
    Join(parts[..k], sep)
  }

  // ---------------------------------------------------------------------------
  // Lemmas

  /** For a one-character separator, containment is character membership. */
  lemma ContainsChar(s: string, c: char)
    ensures Contains(s, [c]) <==> c in s
  {
    if c in s {
      var i :| 0 <= i < |s| && s[i] == c;
      assert OccursAt(s, [c], i);
    }
    if Contains(s, [c]) {
      var i :| OccursAt(s, [c], i);
      assert s[i] == s[i..i + 1][0];
    }
  }

  /**
   * The properties of `splitIntoParts` for a one-character separator: with no
   * separator both halves are the input; otherwise path, separator and name
   * reassemble the input and the name holds no separator, so the split is at the
   * last separator.
   */
  lemma SplitIntoPartsSpec(p: string, sep: string)
    requires |sep| == 1
    ensures !Contains(p, sep) ==> SplitIntoParts(p, sep) == Parts(p, p)
    ensures Contains(p, sep) ==> SplitIntoParts(p, sep).path + sep + SplitIntoParts(p, sep).name == p
    ensures Contains(p, sep) ==> !Contains(SplitIntoParts(p, sep).name, sep)
  {
    var idx := LastIndexOf(p, sep);
    if idx >= 0 {
      SplitAtLast(p, sep, idx);
    }
  }

  /** Cutting at the last occurrence of a one-character separator reassembles the string and leaves no separator after it. */
  lemma SplitAtLast(p: string, sep: string, idx: nat)
    requires |sep| == 1 && OccursAt(p, sep, idx) && forall j :: idx < j ==> !OccursAt(p, sep, j)
    ensures p[..idx] + sep + p[idx + 1..] == p && !Contains(p[idx + 1..], sep)
  {
    assert p == p[..idx] + p[idx..idx + 1] + p[idx + 1..];
    NoSeparatorAfter(p, sep, idx);
  }

  /** Past the last occurrence of a one-character separator the string holds no separator. */
  lemma NoSeparatorAfter(p: string, sep: string, idx: nat)
    requires |sep| == 1 && idx < |p| && forall j :: idx < j ==> !OccursAt(p, sep, j)
    ensures !Contains(p[idx + 1..], sep)
  {
    var name := p[idx + 1..];
    var c := sep[0];
    assert sep == [c];
    ContainsChar(name, c);
    forall i | 0 <= i < |name| ensures name[i] != c {
      var k := idx + 1 + i;
      assert !OccursAt(p, sep, k);
      assert p[k..k + 1] == [p[k]];
    }
  }

  /** Splitting `a + sep + b`, where `b` holds no separator, gives back `b` and `a`. */
  lemma SplitIntoPartsOfJoin(a: string, sep: string, b: string)
    requires |sep| == 1 && !Contains(b, sep)
    ensures SplitIntoParts(a + sep + b, sep) == Parts(b, a)
  {
    var p := a + sep + b;
    assert OccursAt(p, sep, |a|);
    forall j | |a| < j < |p|
      ensures !OccursAt(p, sep, j)
    {
      var k := j - |a| - 1;
      assert p[j..j + 1] == b[k..k + 1];
      assert !OccursAt(b, sep, k);
    }
    assert LastIndexOf(p, sep) == |a|;
    assert p[..|a|] == a && p[|a| + 1..] == b;
  }

  /**
   * With a separator of two or more characters, the name keeps the separator's
   * tail, because the name is cut one character after the separator's start.
   */
  lemma MultiCharSeparatorKeepsTail()
    ensures SplitIntoParts("a::b", "::") == Parts(":b", "a")
  {
    var p := "a::b";
    assert OccursAt(p, "::", 1);
    assert p[2..4] == ":b";
    assert !OccursAt(p, "::", 2);
  }

  /** Splitting with the empty separator yields an empty name and the whole input as path. */
  lemma EmptySeparatorSplit(p: string)
    ensures SplitIntoParts(p, "") == Parts("", p)
  {
    assert OccursAt(p, "", |p|);
  }

  /** `Join` of a piece in front of at least one more piece. */
  lemma {:induction false} JoinCons(a: string, rest: seq<string>, sep: string)
    requires |rest| >= 1
    ensures Join([a] + rest, sep) == a + sep + Join(rest, sep)
  {
    var all := [a] + rest;
    if |rest| > 1 {
      assert all[..|all| - 1] == [a] + rest[..|rest| - 1];
      JoinCons(a, rest[..|rest| - 1], sep);
    } else {
      assert all[..|all| - 1] == [a];
    }
  }

  /** Adding one more piece to an accumulated prefix. */
  lemma PrefixStep(parts: seq<string>, sep: string, k: nat)
    requires 1 <= k < |parts|
    ensures Prefix(parts, sep, k + 1) == Prefix(parts, sep, k) + sep + parts[k]
  {
    assert parts[..k + 1][..k] == parts[..k];
  }

  /** One step of `SplitOn`: the piece before the first separator, then the split of the rest. */
  lemma SplitOnStep(s: string, sep: string)
    requires sep != ""
    ensures var i := IndexFrom(s, sep, 0);
      && (i < 0 ==> SplitOn(s, sep) == [s])
      && (i >= 0 ==> && SplitOn(s, sep) == [s[..i]] + SplitOn(s[i + |sep|..], sep)
                     && s == s[..i] + sep + s[i + |sep|..])
  {
    var i := IndexFrom(s, sep, 0);
    if i >= 0 {
      assert s[i..i + |sep|] == sep;
      assert s == s[..i] + s[i..i + |sep|] + s[i + |sep|..];
    }
  }

  lemma {:induction false} JoinSplitOn(s: string, sep: string)
    requires sep != ""
    ensures |SplitOn(s, sep)| >= 1
    ensures Join(SplitOn(s, sep), sep) == s
    decreases |s|
  {
    SplitOnStep(s, sep);
    var i := IndexFrom(s, sep, 0);
    if i >= 0 {
      var rest := s[i + |sep|..];
      JoinSplitOn(rest, sep);
      JoinCons(s[..i], SplitOn(rest, sep), sep);
    }
  }

  lemma {:induction false} JoinChars(s: string)
    ensures Join(Chars(s), "") == s
    decreases |s|
  {
    if |s| > 1 {
      assert Chars(s)[..|s| - 1] == Chars(s[..|s| - 1]);
      JoinChars(s[..|s| - 1]);
      assert s == s[..|s| - 1] + [s[|s| - 1]];
    }
  }

  /** `split` then `join` with the same separator gives back the input. */
  lemma JoinSplit(s: string, sep: string)
    ensures Join(Split(s, sep), sep) == s
    ensures sep != "" ==> |Split(s, sep)| >= 1
    ensures sep == "" ==> |Split(s, sep)| == |s|
  {
    if sep == "" { JoinChars(s); } else { JoinSplitOn(s, sep); }
  }

  /** No piece of a split holds the (non-empty) separator. */
  lemma {:induction false} SplitPiecesFree(s: string, sep: string)
    requires sep != ""
    ensures forall x | x in Split(s, sep) :: !Contains(x, sep)
    decreases |s|
  {
    var i := IndexFrom(s, sep, 0);
    if i >= 0 {
      SplitPiecesFree(s[i + |sep|..], sep);
      if Contains(s[..i], sep) {
        var j :| OccursAt(s[..i], sep, j);
        assert s[j..j + |sep|] == s[..i][j..j + |sep|];
        assert OccursAt(s, sep, j);
        assert false;
      }
    }
  }

  /** A split has exactly one piece, the input itself, exactly when the separator is absent. */
  lemma SplitSingle(s: string, sep: string)
    requires sep != ""
    ensures |Split(s, sep)| == 1 <==> !Contains(s, sep)
    ensures !Contains(s, sep) ==> Split(s, sep) == [s]
  {
    var i := IndexFrom(s, sep, 0);
    if i >= 0 {
      var rest := s[i + |sep|..];
      assert Split(s, sep) == [s[..i]] + SplitOn(rest, sep);
      JoinSplitOn(rest, sep);
      assert |Split(s, sep)| >= 2;
      assert Contains(s, sep);
    } else {
      assert Split(s, sep) == [s];
      assert !Contains(s, sep);
    }
  }

  /** For a one-character separator, `split` undoes `join` of separator-free pieces. */
  lemma {:induction false} SplitJoin(parts: seq<string>, sep: string)
    requires |sep| == 1 && |parts| >= 1
    requires forall x | x in parts :: !Contains(x, sep)
    ensures Split(Join(parts, sep), sep) == parts
    decreases |parts|
  {
    if |parts| == 1 {
      SplitSingle(parts[0], sep);
    } else {
      var rest := parts[1..];
      assert parts == [parts[0]] + rest;
      JoinCons(parts[0], rest, sep);
      var s := Join(parts, sep);
      var a := parts[0];
      assert s == a + sep + Join(rest, sep);
      assert OccursAt(s, sep, |a|);
      var i := IndexFrom(s, sep, 0);
      assert a in parts;
      forall j | 0 <= j < |a|
        ensures !OccursAt(s, sep, j)
      {
        assert s[j..j + 1] == a[j..j + 1];
        assert !OccursAt(a, sep, j);
      }
      assert i == |a|;
      assert s[..i] == a;
      assert s[i + 1..] == Join(rest, sep);
      SplitJoin(rest, sep);
    }
  }

  /** One segment of a "/"-separated path: non-empty and free of "/". */
  predicate Segment(x: string) {
    x != "" && '/' !in x
  }
}
