/**
 * The path text the archive code works on, on Windows, where `\` is the directory
 * separator and `/` is accepted as an alternative: `Path.GetFileName`,
 * `Path.GetDirectoryName`, `Path.Combine`, and the two helpers of `Extensions`,
 * `GetDirectoryName` and `GetBasePath`.
 */
module Paths {
  import opened Wrappers
  import opened Text

  const SEP: char := '\\'
  const ALT_SEP: char := '/'
  const VOLUME_SEP: char := ':'

  predicate IsSep(c: char) { c == SEP || c == ALT_SEP }

  /** A character after which `Path.GetFileName` starts the name. */
  predicate IsNameStop(c: char) { IsSep(c) || c == VOLUME_SEP }

  /** The index of the last character of `s` satisfying `IsNameStop`, if any. */
  function LastStop(s: string): (r: Option<nat>)
    ensures r.Some? ==> r.value < |s| && IsNameStop(s[r.value])
    ensures r.Some? ==> forall j :: r.value < j < |s| ==> !IsNameStop(s[j])
    ensures r.None? ==> forall j :: 0 <= j < |s| ==> !IsNameStop(s[j])
  {
    if |s| == 0 then None
    else if IsNameStop(s[|s| - 1]) then Some(|s| - 1)
    else LastStop(s[..|s| - 1])
  }

  /** `Path.GetFileName`: the text after the last separator. */
  function GetFileName(p: string): (r: string)
    ensures forall i :: 0 <= i < |r| ==> !IsNameStop(r[i])
  {
    match LastStop(p)
    case None => p
    case Some(k) => p[k + 1..]
  }

  /**
   * `Path.GetDirectoryName` on a relative path with single `\` separators: the text
   * before the last separator or drive colon, or the empty string when there is none.
   * .NET keeps the separator of a root and turns `/` into `\`; neither is modelled.
   */
  function DirectoryName(p: string): string {
    match LastStop(p)
    case None => ""
    case Some(k) => p[..k]
  }

  /** The directory part, the separator and the name make up the path again. */
  lemma SplitPath(p: string)
    ensures LastStop(p).None? ==> GetFileName(p) == p && DirectoryName(p) == ""
    ensures LastStop(p).Some? ==>
      DirectoryName(p) + [p[LastStop(p).value]] + GetFileName(p) == p
  {
    if LastStop(p).Some? {
      var k := LastStop(p).value;
      assert p[..k] + [p[k]] + p[k + 1..] == p;
    }
  }

  /** `Extensions.GetDirectoryName`: like Node's `path.dirname`, "." instead of nothing. */
  function GetDirectoryName(p: string): (r: string)
    ensures r != ""
    ensures r == "." || r == DirectoryName(p)
  {
    if p == "" then "."
    else
      var result := DirectoryName(p);
      if result == "" then "." else result
  }

  /** `Path.IsPathRooted` on Windows: a leading separator or a drive letter. */
  predicate IsRooted(p: string) {
    (|p| >= 1 && IsSep(p[0])) || (|p| >= 2 && p[1] == VOLUME_SEP)
  }

  /** `Path.Combine(a, b)` on Windows. */
  function Combine(a: string, b: string): string {
    if b == "" then a
    else if a == "" then b
    else if IsRooted(b) then b
    else if IsNameStop(a[|a| - 1]) then a + b
    else a + [SEP] + b
  }

  /** A single path segment: non-empty and free of separators and of a drive colon. */
  predicate PlainName(n: string) {
    n != "" && forall i :: 0 <= i < |n| ==> !IsNameStop(n[i])
  }

  /** `Path.Combine(base, name).Replace('\\', '/')`, as the archive listing builds its paths. */
  function ListingPath(base: string, name: string): string {
    ReplaceChar(Combine(base, name), SEP, ALT_SEP)
  }

  /** Below the root the listing joins with "/", and the root itself is "/". */
  lemma ListingPathJoins(base: string, name: string)
    requires PlainName(name) && SEP !in base && VOLUME_SEP !in base && |base| >= 1
    ensures ListingPath(base, name) == if base[|base| - 1] == ALT_SEP then base + name else base + [ALT_SEP] + name
  {
    assert !IsRooted(name);
    assert SEP !in name by {
      assert forall i :: 0 <= i < |name| ==> name[i] != SEP;
    }
    ReplaceAbsent(base, SEP, ALT_SEP);
    ReplaceAbsent(name, SEP, ALT_SEP);
    if IsNameStop(base[|base| - 1]) {
      assert Combine(base, name) == base + name;
      ReplaceConcat(base, name, SEP, ALT_SEP);
    } else {
      assert Combine(base, name) == (base + [SEP]) + name;
      ReplaceConcat(base + [SEP], name, SEP, ALT_SEP);
      ReplaceConcat(base, [SEP], SEP, ALT_SEP);
    }
  }

  /** `p.Replace('/', DirectorySeparatorChar).Replace('\\', DirectorySeparatorChar)`. */
  function NormalizeSeparators(p: string): (r: string)
    ensures ALT_SEP !in r
  {
    ReplaceChar(ReplaceChar(p, ALT_SEP, SEP), SEP, SEP)
  }

  /** The `Split` pieces of a path once both separators are the system's. */
  function Segments(p: string): (r: seq<string>)
    ensures forall i :: 0 <= i < |r| ==> SEP !in r[i] && ALT_SEP !in r[i]
  {
    var normalized := NormalizeSeparators(p);
    SplitAvoids(normalized, SEP, ALT_SEP);
    Split(normalized, SEP)
  }

  /** The pieces the directory walk skips: "." and the empty piece. */
  predicate Skipped(seg: string) { seg == "." || seg == "" }

  /** The pieces the directory walk follows, in order. */
  function Effective(segs: seq<string>): (r: seq<string>)
    ensures |r| <= |segs|
    ensures forall i :: 0 <= i < |r| ==> !Skipped(r[i]) && r[i] in segs
  {
    if |segs| == 0 then []
    else if Skipped(segs[0]) then Effective(segs[1..])
    else [segs[0]] + Effective(segs[1..])
  }

  /** The index of the first '*' or '?', if any (`IndexOfAny`). */
  function FirstWildcard(s: string): (r: Option<nat>)
    ensures r.Some? ==> r.value < |s| && s[r.value] in "*?"
    ensures r.Some? ==> forall j :: 0 <= j < r.value ==> s[j] !in "*?"
    ensures r.None? ==> forall j :: 0 <= j < |s| ==> s[j] !in "*?"
  {
    if |s| == 0 then None
    else if s[0] in "*?" then Some(0)
    else match FirstWildcard(s[1..])
      case None => None
      case Some(k) => Some(k + 1)
  }

  /** The index of the last `c` at or before `from` (`LastIndexOf(c, from)`), if any. */
  function LastIndexOf(s: string, c: char, from: nat): (r: Option<nat>)
    requires from < |s|
    ensures r.Some? ==> r.value <= from && s[r.value] == c
    ensures r.Some? ==> forall j :: r.value < j <= from ==> s[j] != c
    ensures r.None? ==> forall j :: 0 <= j <= from ==> s[j] != c
  {
    if s[from] == c then Some(from)
    else if from == 0 then None
    else LastIndexOf(s, c, from - 1)
  }

  /**
   * `Extensions.GetBasePath`: the directory part of a glob, cut at the last system
   * separator before the first wildcard.
   */
  function GetBasePath(dir: string): string {
    match FirstWildcard(dir)
    case None => dir
    case Some(w) =>
      match LastIndexOf(dir, SEP, w)
      case None => "."
      case Some(k) => dir[..k]
  }

  /** A path without wildcards is its own base. */
  lemma BaseOfPlain(dir: string)
    requires forall i :: 0 <= i < |dir| ==> dir[i] !in "*?"
    ensures GetBasePath(dir) == dir
  {
  }

  /** "." when no separator comes before the first wildcard. */
  lemma BaseWithoutSeparator(dir: string, w: nat)
    requires w < |dir| && dir[w] in "*?"
    requires forall j :: 0 <= j < w ==> dir[j] !in "*?" && dir[j] != SEP
    ensures GetBasePath(dir) == "."
  {
    assert FirstWildcard(dir) == Some(w);
  }

  /**
   * Otherwise the prefix before the last separator that precedes the first wildcard: it
   * holds no wildcard, and nothing between it and the wildcard is a separator.
   */
  lemma BaseBeforeWildcard(dir: string)
    requires FirstWildcard(dir).Some? && LastIndexOf(dir, SEP, FirstWildcard(dir).value).Some?
    ensures var w := FirstWildcard(dir).value;
      var k := LastIndexOf(dir, SEP, w).value;
      && k < w
      && GetBasePath(dir) == dir[..k]
      && dir[k] == SEP
      && (forall j :: 0 <= j < k ==> dir[j] !in "*?")
      && (forall j :: k < j < w ==> dir[j] != SEP)
  {
  }

  /** The directory walk follows the same names whichever separator the path uses. */
  lemma SegmentsAltSep(p: string)
    ensures Segments(p) == Segments(ReplaceChar(p, ALT_SEP, SEP))
  {
    var once := ReplaceChar(p, ALT_SEP, SEP);
    assert ReplaceChar(once, ALT_SEP, SEP) == once;
  }

  /** A name the directory walk follows: a plain name other than ".". */
  predicate Reachable(n: string) { PlainName(n) && n != "." }

  /** The last separator of `x + [s] + y` is `s` when `y` holds none. */
  lemma {:induction false} LastStopAfter(x: string, s: char, y: string)
    requires IsNameStop(s) && forall i :: 0 <= i < |y| ==> !IsNameStop(y[i])
    ensures LastStop(x + [s] + y) == Some(|x|)
    decreases |y|
  {
    var t := x + [s] + y;
    if |y| > 0 {
      assert t[|t| - 1] == y[|y| - 1];
      assert t[..|t| - 1] == x + [s] + y[..|y| - 1];
      LastStopAfter(x, s, y[..|y| - 1]);
    } else {
      assert t[|t| - 1] == s;
    }
  }

  /** Normalising a path joined with `/` from names without separators joins them with `\`. */
  lemma NormalizeJoin(q: seq<string>)
    requires |q| >= 1 && forall i :: 0 <= i < |q| ==> Reachable(q[i])
    ensures NormalizeSeparators(Join(q, ALT_SEP)) == Join(q, SEP)
  {
    forall i | 0 <= i < |q|
      ensures ALT_SEP !in q[i] && SEP !in q[i]
    {
      assert forall j :: 0 <= j < |q[i]| ==> !IsNameStop(q[i][j]);
    }
    ReplaceJoin(q, ALT_SEP, SEP);
    ReplaceSelf(Join(q, SEP), SEP);
  }

  /** Every piece is followed. */
  lemma {:induction false} EffectiveAll(q: seq<string>)
    requires forall i :: 0 <= i < |q| ==> Reachable(q[i])
    ensures Effective(q) == q
  {
    if |q| > 0 {
      EffectiveAll(q[1..]);
      assert [q[0]] + q[1..] == q;
    }
  }

  /** The pieces of a lone "." or empty piece: nothing to follow. */
  lemma SkippedAlone(s: string)
    requires Skipped(s)
    ensures Effective(Segments(s)) == []
  {
    assert SEP !in s && ALT_SEP !in s;
    ReplaceAbsent(s, ALT_SEP, SEP);
    ReplaceAbsent(s, SEP, SEP);
    SplitWithout(s, SEP);
  }

  /** The walk over names joined with `\` follows every name. */
  lemma SegmentsOfJoin(dir: seq<string>)
    requires |dir| >= 1 && forall i :: 0 <= i < |dir| ==> Reachable(dir[i])
    ensures Effective(Segments(Join(dir, SEP))) == dir
  {
    forall i | 0 <= i < |dir|
      ensures SEP !in dir[i] && ALT_SEP !in dir[i]
    {
      assert forall j :: 0 <= j < |dir[i]| ==> !IsNameStop(dir[i][j]);
    }
    ReplaceJoin(dir, ALT_SEP, SEP);
    assert ReplaceChar(Join(dir, SEP), ALT_SEP, SEP) == Join(dir, SEP) by {
      ReplaceJoin(dir, ALT_SEP, ALT_SEP);
      JoinAvoids(dir, SEP, ALT_SEP);
      ReplaceAbsent(Join(dir, SEP), ALT_SEP, SEP);
    }
    ReplaceSelf(Join(dir, SEP), SEP);
    SplitJoin(dir, SEP);
    EffectiveAll(dir);
  }

  /** Splitting a joined path at its last separator gives the names before it and the last. */
  lemma SplitJoined(q: seq<string>)
    requires |q| >= 2 && forall i :: 0 <= i < |q| ==> Reachable(q[i])
    ensures GetFileName(Join(q, SEP)) == q[|q| - 1]
    ensures DirectoryName(Join(q, SEP)) == Join(q[..|q| - 1], SEP)
  {
    var dir := q[..|q| - 1];
    var last := q[|q| - 1];
    var d := Join(dir, SEP);
    assert forall j :: 0 <= j < |last| ==> !IsNameStop(last[j]);
    JoinLast(q, SEP);
    LastStopAfter(d, SEP, last);
    assert (d + [SEP] + last)[|d| + 1..] == last;
    assert (d + [SEP] + last)[..|d|] == d;
  }

  /**
   * For a path of followed names joined with `\\`: the file name is the last name and the
   * walk over the directory part follows all the names before it.
   */
  lemma JoinedPath(q: seq<string>)
    requires |q| >= 1 && forall i :: 0 <= i < |q| ==> Reachable(q[i])
    ensures GetFileName(Join(q, SEP)) == q[|q| - 1]
    ensures Effective(Segments(GetDirectoryName(Join(q, SEP)))) == q[..|q| - 1]
  {
    if |q| == 1 {
      assert Join(q, SEP) == q[0] && q[..0] == [];
      SingleName(q[0]);
    } else {
      ManyNames(q);
    }
  }

  lemma SingleName(n: string)
    requires Reachable(n)
    ensures GetFileName(n) == n
    ensures Effective(Segments(GetDirectoryName(n))) == []
  {
    assert forall j :: 0 <= j < |n| ==> !IsNameStop(n[j]);
    assert LastStop(n).None?;
    SkippedAlone(GetDirectoryName(n));
  }

  lemma ManyNames(q: seq<string>)
    requires |q| >= 2 && forall i :: 0 <= i < |q| ==> Reachable(q[i])
    ensures GetFileName(Join(q, SEP)) == q[|q| - 1]
    ensures Effective(Segments(GetDirectoryName(Join(q, SEP)))) == q[..|q| - 1]
  {
    var dir := q[..|q| - 1];
    SplitJoined(q);
    assert forall i :: 0 <= i < |dir| ==> Reachable(dir[i]) by {
      assert forall i :: 0 <= i < |dir| ==> dir[i] == q[i];
    }
    JoinLength(dir, SEP);
    assert GetDirectoryName(Join(q, SEP)) == Join(dir, SEP);
    SegmentsOfJoin(dir);
  }
}
