/**
  Path strings of the reader (src/archive.js:21-27): `znorm` turns every
  backslash into the container's separator, and `zjoin` is the host's
  `path.join` followed by `znorm`. The host join is modelled as POSIX
  `path.join`: the non-empty arguments are joined with '/' and the result is
  normalized segment by segment ('.' and empty segments dropped, '..' taking
  back the previous segment, a leading '/' and a trailing '/' kept).
  Also here: `path.basename` and `String.prototype.indexOf`.
*/
module Paths {

  /** `znorm`: every backslash becomes '/', every other character stays. */
  function Znorm(s: string): (r: string)
    ensures |r| == |s|
    ensures '\\' !in r
    ensures forall i :: 0 <= i < |s| ==> r[i] == (if s[i] == '\\' then '/' else s[i])
  {
    seq(|s|, i requires 0 <= i < |s| => if s[i] == '\\' then '/' else s[i])
  }

  /** Normalizing twice is normalizing once. */
  lemma ZnormIdempotent(s: string)
    ensures Znorm(Znorm(s)) == Znorm(s)
  {
  }

  /** A string without backslashes is already normal. */
  lemma ZnormFixed(s: string)
    requires '\\' !in s
    ensures Znorm(s) == s
  {
    assert forall i :: 0 <= i < |s| ==> s[i] != '\\';
  }

  // ---------------------------------------------------------------------------
  // Segments

  /** The segments between the '/' characters of `s` (JavaScript's `s.split('/')`). */
  function Split(s: string): (r: seq<string>)
    ensures |r| >= 1
    ensures forall i :: 0 <= i < |r| ==> '/' !in r[i]
  {
    if s == [] then [[]]
    else
      var rest := Split(s[1..]);
      if s[0] == '/' then [[]] + rest
      else [[s[0]] + rest[0]] + rest[1..]
  }

  /** The segments joined with '/' (JavaScript's `segs.join('/')`). */
  function Glue(segs: seq<string>): string
  {
    if segs == [] then []
    else if |segs| == 1 then segs[0]
    else segs[0] + "/" + Glue(segs[1..])
  }

  lemma {:induction false} SplitConcat(a: string, b: string)
    ensures Split(a + "/" + b) == Split(a) + Split(b)
  {
    var s := a + "/" + b;
    if a == [] {
      assert s[0] == '/' && s[1..] == b;
    } else {
      SplitConcat(a[1..], b);
      assert s[0] == a[0] && s[1..] == a[1..] + "/" + b;
    }
  }

  lemma {:induction false} SplitNoSlash(a: string)
    requires '/' !in a
    ensures Split(a) == [a]
  {
    if a != [] {
      SplitNoSlash(a[1..]);
      assert a == [a[0]] + a[1..];
    }
  }

  /** Gluing the segments of a string gives the string back. */
  lemma {:induction false} GlueSplit(s: string)
    ensures Glue(Split(s)) == s
  {
    if s != [] {
      GlueSplit(s[1..]);
      var rest := Split(s[1..]);
      if s[0] == '/' {
        assert ([[]] + rest)[1..] == rest;
      } else if |rest| > 1 {
        assert ([[s[0]] + rest[0]] + rest[1..])[1..] == rest[1..];
      }
      assert s == [s[0]] + s[1..];
    }
  }

  lemma {:induction false} GlueConcat(x: seq<string>, y: seq<string>)
    requires |x| >= 1 && |y| >= 1
    ensures Glue(x + y) == Glue(x) + "/" + Glue(y)
  {
    if |x| > 1 {
      GlueConcat(x[1..], y);
      assert (x + y)[1..] == x[1..] + y;
    } else {
      assert (x + y)[1..] == y;
    }
  }

  /** Splitting glued slash-free segments gives the segments back. */
  lemma {:induction false} SplitGlue(segs: seq<string>)
    requires |segs| >= 1
    requires forall i :: 0 <= i < |segs| ==> '/' !in segs[i]
    ensures Split(Glue(segs)) == segs
  {
    SplitNoSlash(segs[0]);
    if |segs| > 1 {
      SplitGlue(segs[1..]);
      SplitConcat(segs[0], Glue(segs[1..]));
    }
  }

  // ---------------------------------------------------------------------------
  // Normalization and join

  /** A segment that normalization keeps as it is. */
  predicate PlainSegment(seg: string)
  {
    seg != [] && seg != "." && seg != ".."
  }

  /**
    The segment stack of POSIX `normalizeString`: empty and '.' segments are
    dropped; '..' removes the last kept segment, or is kept itself when there
    is none to remove and the path may climb above its start (`above`).
  */
  function Resolve(segs: seq<string>, above: bool): (r: seq<string>)
    ensures forall i :: 0 <= i < |r| ==> r[i] != [] && r[i] != "."
    ensures forall i :: 0 <= i < |r| ==> r[i] == ".." || r[i] in segs
    ensures !above ==> forall i :: 0 <= i < |r| ==> r[i] != ".."
    decreases |segs|
  {
    if segs == [] then []
    else
      var acc := Resolve(segs[..|segs| - 1], above);
      var s := segs[|segs| - 1];
      if s == [] || s == "." then acc
      else if s == ".." then
        if acc != [] && acc[|acc| - 1] != ".." then acc[..|acc| - 1]
        else if above then acc + [".."]
        else acc
      else acc + [s]
  }

  /** Plain segments after a prefix pass through normalization unchanged. */
  lemma {:induction false} ResolveAppendPlain(pre: seq<string>, x: seq<string>, above: bool)
    requires forall i :: 0 <= i < |x| ==> PlainSegment(x[i])
    ensures Resolve(pre + x, above) == Resolve(pre, above) + x
  {
    if x == [] {
      assert pre + x == pre;
    } else {
      var y := x[..|x| - 1];
      ResolveAppendPlain(pre, y, above);
      assert (pre + x)[..|pre + x| - 1] == pre + y;
      assert y + [x[|x| - 1]] == x;
    }
  }

  /**
    POSIX `path.normalize`: "." for the empty path; otherwise the resolved
    segments, with the leading '/' of an absolute path and the trailing '/'
    of the input kept.
  */
  function Normalize(p: string): (r: string)
    ensures r != []
    ensures p != [] && p[|p| - 1] == '/' ==> r[|r| - 1] == '/'
    ensures p != [] && p[0] == '/' <==> r[0] == '/'
  {
    if p == [] then "."
    else
      var abs := p[0] == '/';
      var trail := p[|p| - 1] == '/';
      var body := Glue(Resolve(Split(p), !abs));
      if body == [] then (if abs then "/" else if trail then "./" else ".")
      else (if abs then "/" else []) + body + (if trail then "/" else [])
  }

  /** POSIX `path.join(a, b)`: the non-empty arguments joined with '/', then normalized. */
  function PosixJoin(a: string, b: string): (r: string)
    ensures r != []
    ensures b != [] && b[|b| - 1] == '/' ==> r[|r| - 1] == '/'
  {
    var joined := if a == [] then b else if b == [] then a else a + "/" + b;
    if joined == [] then "." else Normalize(joined)
  }

  /** `zjoin(a, b)` (src/archive.js:25-27). */
  function Zjoin(a: string, b: string): (r: string)
    ensures r != [] && '\\' !in r
    ensures b != [] && b[|b| - 1] == '/' ==> r[|r| - 1] == '/'
  {
    Znorm(PosixJoin(a, b))
  }

  /** A relative path with no empty, '.' or '..' segment: what join leaves alone. */
  predicate PlainPath(s: string)
  {
    var segs := Split(s);
    forall i :: 0 <= i < |segs| ==> PlainSegment(segs[i])
  }

  /** An empty first or last segment is what a leading or trailing '/' leaves. */
  lemma SplitEdges(s: string)
    ensures s == [] ==> Split(s) == [[]]
    ensures s != [] && s[0] == '/' ==> Split(s)[0] == []
    ensures s != [] && s[|s| - 1] == '/' ==> Split(s)[|Split(s)| - 1] == []
  {
    if s != [] && s[|s| - 1] == '/' {
      var t := s[..|s| - 1];
      assert s == t + "/" + [];
      SplitConcat(t, []);
    }
  }

  /** A plain path is non-empty and neither starts nor ends with '/'. */
  lemma PlainPathShape(s: string)
    requires PlainPath(s)
    ensures s != [] && s[0] != '/' && s[|s| - 1] != '/'
  {
    SplitEdges(s);
  }

  /** The segments of `a/b` for plain `a` and `b` are all plain. */
  lemma PlainConcat(a: string, b: string)
    requires PlainPath(a) && PlainPath(b)
    ensures Split(a + "/" + b) == Split(a) + Split(b)
    ensures var x := Split(a) + Split(b); forall i :: 0 <= i < |x| ==> PlainSegment(x[i])
  {
    SplitConcat(a, b);
    var x := Split(a) + Split(b);
    forall i | 0 <= i < |x|
      ensures PlainSegment(x[i])
    {
      if i < |Split(a)| {
        assert x[i] == Split(a)[i];
      } else {
        assert x[i] == Split(b)[i - |Split(a)|];
      }
    }
  }

  /** Normalizing a path whose resolved segments glue to a non-empty body. */
  lemma NormalizeNonEmptyBody(p: string, body: string)
    requires p != []
    requires body == Glue(Resolve(Split(p), p[0] != '/')) && body != []
    ensures Normalize(p) == (if p[0] == '/' then "/" else []) + body + (if p[|p| - 1] == '/' then "/" else [])
  {
  }

  /** Gluing plain path segments of `a` and `b` gives `a/b`. */
  lemma GluePlain(a: string, b: string)
    requires PlainPath(a) && PlainPath(b)
    ensures Glue(Split(a) + Split(b)) == a + "/" + b
  {
    GlueConcat(Split(a), Split(b));
    GlueSplit(a);
    GlueSplit(b);
  }

  /** Plain segments of `a/b` all survive resolution. */
  lemma ResolveRelativePlain(a: string, b: string)
    requires PlainPath(a) && PlainPath(b)
    ensures Resolve(Split(a + "/" + b), true) == Split(a) + Split(b)
  {
    PlainConcat(a, b);
    var x := Split(a) + Split(b);
    ResolveAppendPlain([], x, true);
    assert [] + x == x;
  }

  /** After the empty segment of a leading '/', plain segments all survive resolution. */
  lemma ResolveAbsolutePlain(a: string, b: string)
    requires PlainPath(a) && PlainPath(b)
    ensures Resolve(Split("/" + a + "/" + b), false) == Split(a) + Split(b)
  {
    var p := "/" + a + "/" + b;
    assert p == [] + "/" + (a + "/" + b);
    SplitConcat([], a + "/" + b);
    PlainConcat(a, b);
    var x := Split(a) + Split(b);
    assert Split(p) == [[]] + x;
    ResolveAppendPlain([[]], x, false);
    assert Resolve([[]], false) == [];
  }

  /** Normalization leaves `a/b` alone when `a` and `b` are plain. */
  lemma NormalizeRelativePlain(a: string, b: string)
    requires PlainPath(a) && PlainPath(b)
    ensures Normalize(a + "/" + b) == a + "/" + b
  {
    PlainPathShape(a);
    PlainPathShape(b);
    var p := a + "/" + b;
    ResolveRelativePlain(a, b);
    GluePlain(a, b);
    assert p[0] == a[0] && p[|p| - 1] == b[|b| - 1];
    NormalizeNonEmptyBody(p, p);
  }

  /** Normalization leaves `/a/b` alone when `a` and `b` are plain. */
  lemma NormalizeAbsolutePlain(a: string, b: string)
    requires PlainPath(a) && PlainPath(b)
    ensures Normalize("/" + a + "/" + b) == "/" + a + "/" + b
  {
    PlainPathShape(b);
    var p := "/" + a + "/" + b;
    ResolveAbsolutePlain(a, b);
    GluePlain(a, b);
    assert p[0] == '/' && p[|p| - 1] == b[|b| - 1];
    NormalizeNonEmptyBody(p, a + "/" + b);
  }

  /** Joining two plain paths puts exactly one '/' between them. */
  lemma JoinPlain(a: string, b: string)
    requires PlainPath(a) && PlainPath(b)
    ensures PosixJoin(a, b) == a + "/" + b
  {
    PlainPathShape(a);
    PlainPathShape(b);
    NormalizeRelativePlain(a, b);
  }

  /** Joining an absolute directory made of plain segments with a plain path. */
  lemma JoinAbsolutePlain(a: string, b: string)
    requires PlainPath(a) && PlainPath(b)
    ensures PosixJoin("/" + a, b) == "/" + a + "/" + b
  {
    PlainPathShape(b);
    NormalizeAbsolutePlain(a, b);
    assert ("/" + a) + "/" + b == "/" + a + "/" + b;
  }

  /** Empty segments, such as those of a trailing "//", are dropped. */
  lemma ResolveDropsEmpty(x: seq<string>, above: bool)
    ensures Resolve(x + [[]], above) == Resolve(x, above)
  {
    assert (x + [[]])[..|x|] == x;
  }

  lemma SplitDoubleSlash(d: string)
    ensures Split(d + "/" + "/") == Split(d) + [[], []]
  {
    SplitConcat(d, "/");
    assert "/" == [] + "/" + [];
    SplitConcat([], []);
  }

  lemma ResolvePlainThenTwoEmpty(x: seq<string>)
    requires forall i :: 0 <= i < |x| ==> PlainSegment(x[i])
    ensures Resolve(x + [[], []], true) == x
  {
    ResolveDropsEmpty(x + [[]], true);
    assert x + [[], []] == (x + [[]]) + [[]];
    ResolveDropsEmpty(x, true);
    ResolveAppendPlain([], x, true);
    assert [] + x == x;
  }

  lemma NormalizeDirPrefix(d: string)
    requires PlainPath(d)
    ensures Normalize(d + "/" + "/") == d + "/"
  {
    PlainPathShape(d);
    var p := d + "/" + "/";
    SplitDoubleSlash(d);
    ResolvePlainThenTwoEmpty(Split(d));
    GlueSplit(d);
    assert p[0] == d[0] && p[|p| - 1] == '/';
    NormalizeNonEmptyBody(p, d);
  }

  /** The directory prefix `zjoin(d, '/')` of a plain directory is `d + "/"`. */
  lemma DirPrefixPlain(d: string)
    requires PlainPath(d) && '\\' !in d
    ensures Zjoin(d, "/") == d + "/"
  {
    PlainPathShape(d);
    NormalizeDirPrefix(d);
    assert PosixJoin(d, "/") == d + "/";
    ZnormFixed(d + "/");
  }

  // ---------------------------------------------------------------------------
  // basename

  /** `s` without its run of trailing '/' characters. */
  function StripTrailingSlashes(s: string): (r: string)
    ensures |r| <= |s| && r == s[..|r|]
    ensures r == [] || r[|r| - 1] != '/'
    ensures forall j :: |r| <= j < |s| ==> s[j] == '/'
  {
    if s != [] && s[|s| - 1] == '/' then StripTrailingSlashes(s[..|s| - 1]) else s
  }

  /** What follows the last '/' of `s`. */
  function LastSegment(s: string): (r: string)
    ensures '/' !in r
    ensures |r| <= |s| && r == s[|s| - |r|..]
    ensures |r| < |s| ==> s[|s| - |r| - 1] == '/'
  {
    if s == [] || s[|s| - 1] == '/' then [] else LastSegment(s[..|s| - 1]) + [s[|s| - 1]]
  }

  /** POSIX `path.basename(s)`: the last segment once trailing slashes are ignored. */
  function Basename(s: string): (r: string)
    ensures '/' !in r
  {
    LastSegment(StripTrailingSlashes(s))
  }

  /** A trailing '/' does not change the base name. */
  lemma BasenameTrailingSlash(s: string)
    ensures Basename(s + "/") == Basename(s)
  {
    assert (s + "/")[..|s|] == s;
  }

  lemma {:induction false} LastSegmentAfterSlash(p: string, x: string)
    requires p == [] || p[|p| - 1] == '/'
    requires '/' !in x
    ensures LastSegment(p + x) == x
  {
    if x != [] {
      var y := x[..|x| - 1];
      LastSegmentAfterSlash(p, y);
      assert (p + x)[..|p + x| - 1] == p + y;
      assert y + [x[|x| - 1]] == x;
    } else {
      assert p + x == p;
    }
  }

  /** The base name of a child `x` (or `x/`) of a directory prefix `p` is `x`. */
  lemma BasenameOfChild(p: string, x: string)
    requires p == [] || p[|p| - 1] == '/'
    requires x != [] && '/' !in x
    ensures Basename(p + x) == x
    ensures Basename(p + x + "/") == x
  {
    LastSegmentAfterSlash(p, x);
    BasenameTrailingSlash(p + x);
  }

  // ---------------------------------------------------------------------------
  // indexOf

  predicate OccursAt(s: string, pat: string, j: nat)
  {
    j + |pat| <= |s| && s[j..j + |pat|] == pat
  }

  /** `s.indexOf(pat, from)`: the first occurrence at or after `from`, or -1. */
  function IndexOfFrom(s: string, pat: string, from: nat): (r: int)
    requires pat != []
    ensures r == -1 || (from <= r && OccursAt(s, pat, r))
    ensures forall j: nat :: from <= j && (r == -1 || j < r) ==> !OccursAt(s, pat, j)
    decreases |s| - from
  {
    if from + |pat| > |s| then -1
    else if OccursAt(s, pat, from) then from
    else IndexOfFrom(s, pat, from + 1)
  }

  /** `s.indexOf(pat)`. */
  function IndexOf(s: string, pat: string): (r: int)
    requires pat != []
    ensures r == -1 <==> forall j: nat :: !OccursAt(s, pat, j)
    ensures r != -1 ==> 0 <= r && OccursAt(s, pat, r) && forall j: nat :: j < r ==> !OccursAt(s, pat, j)
  {
    IndexOfFrom(s, pat, 0)
  }
}
