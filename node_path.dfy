/**
 * The part of Node's POSIX `path` module that the upload filter relies on:
 * `path.extname`, which looks at the last path segment (trailing slashes
 * ignored) and returns its text from the last dot on, except that a segment
 * whose only leading character is that dot (".ejs", ".bashrc") and the
 * segment ".." have no extension.
 */
module NodePath {

  /** The path with every trailing '/' removed. */
  function StripTrailingSlashes(p: string): (r: string)
    ensures |r| <= |p| && r == p[..|r|]
    ensures r == [] || r[|r| - 1] != '/'
    ensures forall i :: |r| <= i < |p| ==> p[i] == '/'
  {
    if |p| > 0 && p[|p| - 1] == '/' then StripTrailingSlashes(p[..|p| - 1]) else p
  }

  /** The text after the last '/' of `p`. */
  function LastSegment(p: string): (r: string)
    ensures |r| <= |p| && r == p[|p| - |r|..]
    ensures '/' !in r
    ensures |r| < |p| ==> p[|p| - |r| - 1] == '/'
  {
    if p == [] || p[|p| - 1] == '/' then [] else LastSegment(p[..|p| - 1]) + [p[|p| - 1]]
  }

  /** The index of the last '.' in `b`, or -1 when there is none. */
  function LastDot(b: string): (k: int)
    ensures -1 <= k < |b|
    ensures k >= 0 ==> b[k] == '.'
    ensures forall j :: k < j < |b| ==> b[j] != '.'
  {
    if b == [] then -1
    else if b[|b| - 1] == '.' then |b| - 1
    else LastDot(b[..|b| - 1])
  }

  /** The extension of one path segment, as `path.extname` computes it. */
  function SegmentExt(b: string): (e: string)
    ensures e == [] || (|e| < |b| && e == b[|b| - |e|..] && e[0] == '.')
    ensures forall j :: 0 < j < |e| ==> e[j] != '.'
  {
    var k := LastDot(b);
    if k <= 0 || b == ".." then "" else b[k..]
  }

  /** `path.extname(p)` on POSIX. */
  function Extname(p: string): (e: string)
    ensures e == [] || e[0] == '.'
  {
    SegmentExt(LastSegment(StripTrailingSlashes(p)))
  }

  /** The extension of a tail of `s` is itself a tail of `s`. */
  lemma ExtOfTailIsTail(b: string, s: string)
    requires |b| <= |s| && b == s[|s| - |b|..]
    ensures var e := SegmentExt(b); |e| <= |s| && e == s[|s| - |e|..]
  {
    var e := SegmentExt(b);
    if e == [] {
      assert s[|s|..] == [];
    } else {
      SuffixOfSuffix(e, b, s);
    }
  }

  /** The extension is a tail of the path, trailing slashes ignored. */
  lemma ExtnameIsTail(p: string)
    ensures var s := StripTrailingSlashes(p); |Extname(p)| <= |s| && Extname(p) == s[|s| - |Extname(p)|..]
  {
    var s := StripTrailingSlashes(p);
    var b := LastSegment(s);
    assert Extname(p) == SegmentExt(b);
    ExtOfTailIsTail(b, s);
  }

  /** The extension never reaches back past the last '/'. */
  lemma ExtnameHasNoSlash(p: string)
    ensures '/' !in Extname(p)
  {
  }

  /** A suffix of a suffix is a suffix. */
  lemma SuffixOfSuffix(e: string, b: string, s: string)
    requires |b| <= |s| && b == s[|s| - |b|..]
    requires |e| <= |b| && e == b[|b| - |e|..]
    ensures |e| <= |s| && e == s[|s| - |e|..]
  {
  }

  /** The segment ends with ".ejs" (case as written) and has text before it. */
  predicate HasEjsEnding(b: string)
  {
    |b| > 4 && b[|b| - 4..] == ".ejs"
  }

  lemma SegmentExtIsEjs(b: string)
    ensures SegmentExt(b) == ".ejs" <==> HasEjsEnding(b)
  {
    var k := LastDot(b);
    if HasEjsEnding(b) {
      var e := b[|b| - 4..];
      assert e[0] == '.' && e[1] == 'e' && e[2] == 'j' && e[3] == 's';
      assert b[|b| - 4] == '.' && b[|b| - 3] != '.' && b[|b| - 2] != '.' && b[|b| - 1] != '.';
      assert k == |b| - 4;
      assert b != "..";
    }
    if SegmentExt(b) == ".ejs" {
      assert k > 0 && b[k..] == ".ejs";
      assert k == |b| - 4;
    }
  }

  /**
   * `path.extname(p) === '.ejs'` holds exactly when the last segment
   * (trailing slashes ignored) is longer than ".ejs" and ends with it,
   * with the case as written.
   */
  lemma ExtnameIsEjs(p: string)
    ensures Extname(p) == ".ejs" <==> HasEjsEnding(LastSegment(StripTrailingSlashes(p)))
  {
    SegmentExtIsEjs(LastSegment(StripTrailingSlashes(p)));
  }

  /** A name without '/' is its own last segment. */
  lemma PlainNameIsSegment(p: string)
    requires '/' !in p
    ensures LastSegment(StripTrailingSlashes(p)) == p
  {
    if p != [] {
      assert p[|p| - 1] in p;
    }
  }

  /**
   * The comparison is case-sensitive: a plain file name ending in ".EJS" does
   * not have the extension ".ejs".
   */
  lemma UpperCaseExtensionRejected(p: string)
    requires '/' !in p && |p| >= 4 && p[|p| - 4..] == ".EJS"
    ensures Extname(p) != ".ejs"
  {
    PlainNameIsSegment(p);
    SegmentExtIsEjs(p);
    assert p[|p| - 4..][1] != ".ejs"[1];
  }
}
