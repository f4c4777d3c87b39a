/** Path globs: splitting a pattern into parts, and matching it against a path. */
module Pathglob {
  import opened Bytes
  import opened Errors
  import opened Glob

  const STAR: byte := 42
  const SLASH: byte := 47
  const MAX_DEPTH := 32

  datatype PartType = Verbatim | Pattern | Recursive

  /** A part points into the absolute path. */
  datatype Part = Part(off: nat, size: nat, kind: PartType)

  // ----- Segments of a path -------------------------------------------------------------

  function FirstSlash(s: seq<byte>): (n: nat)
    ensures n <= |s| && SLASH !in s[..n] && (n < |s| ==> s[n] == SLASH)
  {
    if s == [] || s[0] == SLASH then 0
    else
      var n := FirstSlash(s[1..]);
      assert s[..1 + n] == [s[0]] + s[1..][..n];
      1 + n
  }

  /** The segments between slashes. There is always at least one; an empty one where two slashes
      meet or the path ends in one. */
  function Split(s: seq<byte>): (segs: seq<seq<byte>>)
    ensures |segs| > 0
    decreases |s|
  {
    var n := FirstSlash(s);
    if n == |s| then [s] else [s[..n]] + Split(s[n + 1..])
  }

  function Join(segs: seq<seq<byte>>): seq<byte> {
    if segs == [] then []
    else if |segs| == 1 then segs[0]
    else segs[0] + [SLASH] + Join(segs[1..])
  }

  /** Splitting loses nothing, and no segment holds a slash. */
  lemma {:induction false} SplitJoins(s: seq<byte>)
    ensures Join(Split(s)) == s
    ensures forall i :: 0 <= i < |Split(s)| ==> SLASH !in Split(s)[i]
    decreases |s|
  {
    var n := FirstSlash(s);
    assert s[..|s|] == s;
    if n < |s| {
      var rest := Split(s[n + 1..]);
      SplitJoins(s[n + 1..]);
      assert Split(s)[1..] == rest;
      assert s == s[..n] + [SLASH] + s[n + 1..];
      assert forall i :: 1 <= i < |Split(s)| ==> Split(s)[i] == rest[i - 1];
    }
  }

  lemma {:induction false} SegmentBytes(s: seq<byte>, i: nat, b: byte)
    requires i < |Split(s)| && b in Split(s)[i]
    ensures b in s
    decreases |s|
  {
    var n := FirstSlash(s);
    if n < |s| && i > 0 {
      SegmentBytes(s[n + 1..], i - 1, b);
    }
  }

  /** The first slash splits off the first segment. */
  lemma SplitAt(s: seq<byte>, n: nat)
    requires n < |s| && s[n] == SLASH && SLASH !in s[..n]
    ensures Split(s) == [s[..n]] + Split(s[n + 1..])
  {
    var m := FirstSlash(s);
    assert forall k :: 0 <= k < n ==> s[k] == s[..n][k];
    assert forall k :: 0 <= k < m ==> s[k] == s[..m][k];
    assert m == n;
  }

  lemma SplitLast(s: seq<byte>)
    requires SLASH !in s
    ensures Split(s) == [s]
  {
  }

  // ----- What a glob means -----------------------------------------------------------------

  predicate Same(x: byte, y: byte) {
    x == y
  }

  /** A pattern segment as a star pattern over bytes. */
  function Letters(g: seq<byte>): seq<Elem<byte>>
  {
    seq(|g|, i requires 0 <= i < |g| => if g[i] == STAR then Star else One(g[i]))
  }

  predicate SegmentMatches(g: seq<byte>, r: seq<byte>) {
    Matches(Same, Letters(g), r)
  }

  /** A segment matches exactly when strings can be put for its stars that make it the other. */
  lemma SegmentMatchesIffAssigned(g: seq<byte>, r: seq<byte>)
    ensures SegmentMatches(g, r) <==>
              exists pieces: seq<seq<byte>> :: Assigns(Same, Letters(g), pieces) && Concat(pieces) == r
  {
    MatchesIffAssigned(Same, Letters(g), r);
  }

  /** Without a star that is equality. */
  lemma {:induction false} VerbatimIsEquality(g: seq<byte>, r: seq<byte>)
    requires STAR !in g
    ensures SegmentMatches(g, r) <==> g == r
    decreases |g|
  {
    if g != [] {
      assert Letters(g)[1..] == Letters(g[1..]);
      if r != [] {
        VerbatimIsEquality(g[1..], r[1..]);
        assert g == [g[0]] + g[1..] && r == [r[0]] + r[1..];
      }
    }
  }

  /** Any segment matches a star alone, and a double star that is not recursive. */
  lemma StarsMatchAnything(r: seq<byte>)
    ensures SegmentMatches([STAR], r) && SegmentMatches([STAR, STAR], r)
  {
    assert Letters([STAR]) == [Star];
    StarTakesAll(Same, r);
    assert Letters([STAR, STAR])[1..] == [Star];
  }

  predicate IsRecursive(segs: seq<seq<byte>>, i: int)
    requires 0 <= i < |segs|
  {
    i + 1 < |segs| && segs[i] == [STAR, STAR]
  }

  /** A glob as a star pattern over segments: an inner double star takes any number of them, and
      every other segment exactly one. */
  function Parts(segs: seq<seq<byte>>): seq<Elem<seq<byte>>>
  {
    seq(|segs|, i requires 0 <= i < |segs| => if IsRecursive(segs, i) then Star else One(segs[i]))
  }

  /** Whether a glob path matches a real path, both absolute. */
  predicate PathMatches(glob: seq<byte>, path: seq<byte>)
    requires glob != [] && path != []
  {
    Matches(SegmentMatches, Parts(Split(glob[1..])), Split(path[1..]))
  }

  /** A path matches exactly when its segments can be dealt out to the parts of the glob. */
  lemma PathMatchesIffAssigned(glob: seq<byte>, path: seq<byte>)
    requires glob != [] && path != []
    ensures PathMatches(glob, path) <==>
              exists pieces :: Assigns(SegmentMatches, Parts(Split(glob[1..])), pieces)
                               && Concat(pieces) == Split(path[1..])
  {
    MatchesIffAssigned(SegmentMatches, Parts(Split(glob[1..])), Split(path[1..]));
  }

  // ----- The same in examples of every shape with one star ---------------------------------------

  /** A star, the byte 42, takes any bytes of its segment: what is before and behind it is literal. */
  lemma StarSpansBytes(pre: seq<byte>, post: seq<byte>, r: seq<byte>)
    requires 42 !in pre && 42 !in post
    ensures SegmentMatches(pre + [42] + post, r) <==>
              |pre| + |post| <= |r| && r[..|pre|] == pre && r[|r| - |post|..] == post
  {
    assert Letters(pre + [42] + post) == Letters(pre) + [Star] + Letters(post);
    OneStarMeans(Same, Letters(pre), Letters(post), r);
    if |pre| + |post| <= |r| {
      FitsLiterally(pre, r[..|pre|]);
      FitsLiterally(post, r[|r| - |post|..]);
    }
  }

  lemma FitsLiterally(g: seq<byte>, r: seq<byte>)
    requires STAR !in g && |r| == |g|
    ensures FitsEach(Same, Letters(g), r) <==> r == g
  {
  }

  predicate NoStars(segs: seq<seq<byte>>) {
    forall i :: 0 <= i < |segs| ==> 42 !in segs[i]
  }

  /** An inner double star takes any number of segments, also none. */
  lemma DoubleStarSpansSegments(pre: seq<seq<byte>>, post: seq<seq<byte>>, segs: seq<seq<byte>>)
    requires NoStars(pre) && NoStars(post) && post != []
    ensures Matches(SegmentMatches, Parts(pre + [[42, 42]] + post), segs) <==>
              |pre| + |post| <= |segs| && segs[..|pre|] == pre && segs[|segs| - |post|..] == post
  {
    hide Matches, FitsEach, SegmentMatches;
    PartsAround(pre, post);
    OneStarMeans(SegmentMatches, Ones(pre), Ones(post), segs);
    if |pre| + |post| <= |segs| {
      FitSegments(pre, segs[..|pre|]);
      FitSegments(post, segs[|segs| - |post|..]);
    }
  }

  lemma PartsAround(pre: seq<seq<byte>>, post: seq<seq<byte>>)
    requires NoStars(pre) && NoStars(post) && post != []
    ensures Parts(pre + [[42, 42]] + post) == Ones(pre) + [Star] + Ones(post)
  {
    var segs := pre + [[42, 42]] + post;
    forall i | 0 <= i < |segs|
      ensures Parts(segs)[i] == (Ones(pre) + [Star] + Ones(post))[i]
    {
      if i < |pre| {
        assert segs[i] == pre[i] && 42 in [42, 42];
      } else if i > |pre| {
        assert segs[i] == post[i - |pre| - 1];
      }
    }
  }

  /** A double star that ends the glob takes exactly one segment. */
  lemma LastDoubleStarIsOne(pre: seq<seq<byte>>, segs: seq<seq<byte>>)
    requires NoStars(pre)
    ensures Matches(SegmentMatches, Parts(pre + [[42, 42]]), segs) <==> |segs| == |pre| + 1 && segs[..|pre|] == pre
  {
    hide Matches, FitsEach;
    var glob := pre + [[42, 42]];
    assert Parts(glob) == Ones(glob);
    OnesMean(SegmentMatches, Ones(glob), segs);
    LastFits(pre, segs);
  }

  lemma LastFits(pre: seq<seq<byte>>, segs: seq<seq<byte>>)
    requires NoStars(pre)
    ensures FitsEach(SegmentMatches, Ones(pre + [[42, 42]]), segs) <==> |segs| == |pre| + 1 && segs[..|pre|] == pre
  {
    hide SegmentMatches;
    var glob := pre + [[42, 42]];
    if |segs| == |pre| + 1 {
      StarsMatchAnything(segs[|pre|]);
      FitSegments(pre, segs[..|pre|]);
      assert forall i :: 0 <= i < |pre| ==> Ones(glob)[i] == Ones(pre)[i] && segs[i] == segs[..|pre|][i];
    }
  }

  function Ones(segs: seq<seq<byte>>): (q: seq<Elem<seq<byte>>>)
    ensures AllOnes(q) && |q| == |segs|
  {
    seq(|segs|, i requires 0 <= i < |segs| => One(segs[i]))
  }

  lemma FitSegments(g: seq<seq<byte>>, segs: seq<seq<byte>>)
    requires NoStars(g) && |segs| == |g|
    ensures FitsEach(SegmentMatches, Ones(g), segs) <==> segs == g
  {
    forall i | 0 <= i < |g|
      ensures SegmentMatches(g[i], segs[i]) <==> g[i] == segs[i]
    {
      VerbatimIsEquality(g[i], segs[i]);
    }
  }

  /** The slash, the byte 47, and nothing else, ends a segment. */
  lemma SlashSplits(a: seq<byte>, b: seq<byte>)
    requires 47 !in a
    ensures Split(a) == [a] && Split(a + [47] + b) == [a] + Split(b)
  {
    SplitLast(a);
    var s := a + [47] + b;
    assert s[..|a|] == a && s[|a| + 1..] == b;
    SplitAt(s, |a|);
  }

  // ----- The glob object -----------------------------------------------------------------------

  predicate AnyStar(segs: seq<seq<byte>>) {
    exists i :: 0 <= i < |segs| && STAR in segs[i]
  }

  lemma AnyStarGrows(segs: seq<seq<byte>>, seg: seq<byte>)
    ensures AnyStar(segs + [seg]) <==> AnyStar(segs) || STAR in seg
  {
    var more := segs + [seg];
    assert more[|segs|] == seg;
    if AnyStar(segs) {
      var i :| 0 <= i < |segs| && STAR in segs[i];
      assert STAR in more[i];
    }
  }

  /** The kind given to a part: once any part had a star, none is verbatim any more. */
  function KindOf(seg: seq<byte>, starSeen: bool, last: bool): PartType {
    if !starSeen then Verbatim else if !last && seg == [STAR, STAR] then Recursive else Pattern
  }

  function KindAt(segs: seq<seq<byte>>, i: nat): PartType
    requires i < |segs|
  {
    KindOf(segs[i], AnyStar(segs[..i + 1]), i + 1 == |segs|)
  }

  /** The star flag that is never reset turns verbatim parts into patterns, which match the same:
      being recursive depends on the segment alone, and a part called verbatim has no star. */
  lemma KindMeaning(segs: seq<seq<byte>>, i: nat)
    requires i < |segs|
    ensures KindAt(segs, i).Recursive? <==> IsRecursive(segs, i)
    ensures KindAt(segs, i).Verbatim? ==> STAR !in segs[i]
  {
  }

  /** A NUL-terminated absolute path. */
  predicate IsAbsPath(a: seq<byte>) {
    |a| >= 2 && a[0] == SLASH && a[|a| - 1] == 0 && 0 !in a[..|a| - 1]
  }

  function PathOf(a: seq<byte>): seq<byte>
    requires IsAbsPath(a)
  {
    a[..|a| - 1]
  }

  /** `part` is the segment `seg` of the path, with the byte after it that ends every scan. */
  predicate Holds(a: seq<byte>, part: Part, seg: seq<byte>) {
    && part.off + part.size < |a|
    && a[part.off..part.off + part.size] == seg
    && (a[part.off + part.size] == SLASH || a[part.off + part.size] == 0)
  }

  /** Parts as a star pattern over their segments, going by their kinds. */
  function Typed(parts: seq<Part>, segs: seq<seq<byte>>): seq<Elem<seq<byte>>>
    requires |parts| == |segs|
  {
    seq(|segs|, i requires 0 <= i < |segs| => if parts[i].kind.Recursive? then Star else One(segs[i]))
  }

  /** No byte of a segment ends a scan. */
  predicate AreSegments(segs: seq<seq<byte>>) {
    forall i :: 0 <= i < |segs| ==> SLASH !in segs[i] && 0 !in segs[i]
  }

  class Pathglob {
    var abspath: array<byte>
    var parts: array<Part>
    var depth: nat
    ghost var segs: seq<seq<byte>>

    constructor ()
      ensures fresh(abspath) && fresh(parts) && parts.Length == MAX_DEPTH && depth == 0
    {
      segs := [];
      abspath := new byte[0];
      parts := new Part[MAX_DEPTH](_ => Part(0, 0, Verbatim));
      depth := 0;
    }

    /** The parts lie in the path, and are the segments `segs`. What a part may be called is left open,
        except that one called verbatim has no star. */
    ghost predicate Valid()
      reads this, abspath, parts
    {
      && parts.Length == MAX_DEPTH && depth == |segs| <= MAX_DEPTH
      && (forall i :: 0 <= i < depth ==> Holds(abspath[..], parts[i], segs[i]))
      && (forall i :: 0 <= i < depth && parts[i].kind.Verbatim? ==> STAR !in segs[i])
    }

    /** What Init has built for a path. */
    ghost predicate Built(path: seq<byte>)
      reads this, abspath, parts
    {
      && IsAbsPath(abspath[..]) && PathOf(abspath[..]) == path
      && segs == Split(path[1..]) && Valid()
      && (forall i :: 0 <= i < depth ==> parts[i].kind == KindAt(segs, i))
    }

    /** Splits and classifies. `abs` is what a0_abspath made of the pattern, or nothing when the
        pattern was null. */
    method Init(abs: Option<Result<array<byte>>>) returns (err: Option<Error>)
      requires abs.Some? && abs.value.Ok? ==>
                 IsAbsPath(abs.value.value[..]) && |Split(PathOf(abs.value.value[..])[1..])| <= MAX_DEPTH
      modifies this
      ensures err.None? <==> abs.Some? && abs.value.Ok?
      ensures abs.None? ==> err == Some(BadPath)
      ensures abs.Some? && abs.value.Err? ==> err == Some(abs.value.error)
      ensures err.None? ==> abspath == abs.value.value && fresh(parts) && Built(PathOf(abspath[..]))
    {
      depth := 0;
      parts := new Part[MAX_DEPTH](_ => Part(0, 0, Verbatim));
      if abs.None? { return Some(BadPath); }
      if abs.value.Err? { return Some(abs.value.error); }
      abspath := abs.value.value;
      SplitParts();
      err := None;
    }

    /** The scan of the path. */
    method SplitParts()
      requires IsAbsPath(abspath[..]) && |Split(PathOf(abspath[..])[1..])| <= MAX_DEPTH
      requires depth == 0 && parts.Length == MAX_DEPTH
      modifies this`depth, this`segs, parts
      ensures Built(PathOf(abspath[..]))
    {
      hide Scanned, KindAt, Split, AnyStar, Holds;
      ghost var a := abspath[..];
      ghost var path := PathOf(a);
      segs := Split(path[1..]);
      ScanStarts(path);
      var recent, iter, hasStar := 0, 1, false;
      while abspath[iter] != 0
        invariant 0 <= recent < iter <= |path| && depth < |segs|
        invariant Scanned(path, depth, recent, iter, hasStar)
        invariant abspath[..] == a && segs == Split(path[1..])
        invariant forall i :: 0 <= i < depth ==> Holds(a, parts[i], segs[i])
        invariant forall i :: 0 <= i < depth ==> parts[i].kind == KindAt(segs, i)
        decreases |path| - iter
      {
        if abspath[iter] == STAR {
          ScanLetter(path, depth, recent, iter, hasStar);
          hasStar := true;
        } else if abspath[iter] == SLASH {
          var kind := Verbatim;
          if hasStar {
            kind := Pattern;
            if iter == recent + 3 && abspath[recent + 1] == STAR && abspath[recent + 2] == STAR {
              kind := Recursive;
            }
          }
          ScanSlash(path, depth, recent, iter, hasStar);
          HoldsPart(a, recent, iter, kind);
          parts[depth] := Part(recent + 1, iter - recent - 1, kind);
          depth := depth + 1;
          recent := iter;
        } else {
          ScanLetter(path, depth, recent, iter, hasStar);
        }
        iter := iter + 1;
      }
      ScanEnds(path, depth, recent, hasStar);
      HoldsPart(a, recent, iter, if hasStar then Pattern else Verbatim);
      assert path[recent + 1..iter] == path[recent + 1..];
      parts[depth] := Part(recent + 1, iter - recent - 1, if hasStar then Pattern else Verbatim);
      depth := depth + 1;
      forall i | 0 <= i < depth
        ensures parts[i].kind.Verbatim? ==> STAR !in segs[i]
      {
        KindMeaning(segs, i);
      }
    }

    ghost function Elems(): seq<Elem<seq<byte>>>
      requires Valid()
      reads this, abspath, parts
    {
      Typed(parts[..depth], segs)
    }

    // ----- The search of Glob, for these parts and the segments of another path

    ghost predicate Matching(other: Pathglob)
      requires Valid() && other.Valid()
      reads this, abspath, parts, other, other.abspath, other.parts
    {
      Matches(SegmentMatches, Elems(), other.segs)
    }

    ghost predicate LookedUpTo(other: Pathglob, g: nat, r: nat, starG: nat, starR: nat)
      requires Valid() && other.Valid()
      reads this, abspath, parts, other, other.abspath, other.parts
    {
      Searching(SegmentMatches, Elems(), other.segs, g, r, if starG == 0 then -1 else starG, starR)
    }

    ghost predicate Fitting(other: Pathglob, g: nat, r: nat)
      requires Valid() && other.Valid()
      reads this, abspath, parts, other, other.abspath, other.parts
    {
      FitsAt(SegmentMatches, Elems(), other.segs, g, r)
    }

    ghost predicate NotFitting(other: Pathglob, g: nat, r: nat)
      requires Valid() && other.Valid()
      reads this, abspath, parts, other, other.abspath, other.parts
    {
      Stuck(SegmentMatches, Elems(), other.segs, g, r)
    }

    lemma Open(other: Pathglob)
      requires Valid() && other.Valid()
      ensures LookedUpTo(other, 0, 0, 0, 0)
    {
    }

    lemma Bounds(other: Pathglob, g: nat, r: nat, starG: nat, starR: nat)
      requires Valid() && other.Valid() && LookedUpTo(other, g, r, starG, starR)
      ensures starG <= g <= depth <= parts.Length && starR <= r <= other.depth
    {
    }

    lemma PassRecursive(other: Pathglob, g: nat, r: nat, starG: nat, starR: nat)
      requires Valid() && other.Valid() && LookedUpTo(other, g, r, starG, starR)
      requires g < depth && parts[g].kind.Recursive?
      ensures LookedUpTo(other, g + 1, r, g + 1, r)
      ensures g + 1 == depth ==> Matching(other)
    {
      MeetStar(SegmentMatches, Elems(), other.segs, g, r, if starG == 0 then -1 else starG, starR);
    }

    lemma PassSegment(other: Pathglob, g: nat, r: nat, starG: nat, starR: nat)
      requires Valid() && other.Valid() && LookedUpTo(other, g, r, starG, starR)
      requires Fitting(other, g, r)
      ensures LookedUpTo(other, g + 1, r + 1, starG, starR)
    {
      Advance(SegmentMatches, Elems(), other.segs, g, r, if starG == 0 then -1 else starG, starR);
    }

    lemma TryFurther(other: Pathglob, g: nat, r: nat, starG: nat, starR: nat)
      requires Valid() && other.Valid() && LookedUpTo(other, g, r, starG, starR)
      requires NotFitting(other, g, r)
      ensures starG == 0 ==> !Matching(other)
      ensures starG > 0 ==> LookedUpTo(other, starG, starR + 1, starG, starR + 1)
    {
      Retreat(SegmentMatches, Elems(), other.segs, g, r, if starG == 0 then -1 else starG, starR);
    }

    lemma UsedUp(other: Pathglob, g: nat, starG: nat, starR: nat)
      requires Valid() && other.Valid() && LookedUpTo(other, g, other.depth, starG, starR)
      ensures g <= depth && (Matching(other) <==> OnlyRecursiveFrom(g))
    {
      Finish(SegmentMatches, Elems(), other.segs, g, if starG == 0 then -1 else starG, starR);
      ghost var p := Elems();
      assert forall k :: 0 <= k < depth ==> (p[k].Star? <==> parts[k].kind.Recursive?);
      assert forall k :: 0 <= k < |p[g..]| ==> p[g..][k] == p[g + k];
      assert forall k :: g <= k < depth ==> p[k] == p[g..][k - g];
    }

    ghost predicate OnlyRecursiveFrom(from: nat)
      requires Valid()
      reads this, abspath, parts
    {
      forall k :: from <= k < depth ==> parts[k].kind.Recursive?
    }

    /** The same backtracking over the segments of a path. */
    method Search(other: Pathglob) returns (out: bool)
      requires Valid() && other.Valid() && AreSegments(other.segs)
      ensures out <==> Matching(other)
    {
      hide *;
      var starG, starR := 0, 0;
      var g, r := 0, 0;
      Open(other);
      while r < other.depth
        invariant Valid() && other.Valid() && 0 <= g && 0 <= r && 0 <= starG && 0 <= starR
        invariant LookedUpTo(other, g, r, starG, starR)
        decreases depth - starG, other.depth - starR, depth - g
      {
        Bounds(other, g, r, starG, starR);
        if g < depth && parts[g].kind.Recursive? {
          PassRecursive(other, g, r, starG, starR);
          g := g + 1;
          starG, starR := g, r;
          if g == depth && r + 1 != other.depth {
            return true;
          }
        } else {
          var segmentMatch := MatchAt(g, other, r);
          if segmentMatch {
            PassSegment(other, g, r, starG, starR);
            r, g := r + 1, g + 1;
          } else {
            TryFurther(other, g, r, starG, starR);
            if starG == 0 {
              return false;
            }
            starR := starR + 1;
            r, g := starR, starG;
          }
        }
      }
      Bounds(other, g, r, starG, starR);
      UsedUp(other, g, starG, starR);
      out := OnlyRecursive(g);
    }

    /** Whether there is a part at `g` that matches the segment at `r`. */
    method MatchAt(g: nat, other: Pathglob, r: nat) returns (out: bool)
      requires Valid() && other.Valid() && AreSegments(other.segs)
      requires g <= depth && r < other.depth && (g < depth ==> !parts[g].kind.Recursive?)
      ensures if out then Fitting(other, g, r) else NotFitting(other, g, r)
    {
      out := false;
      if g < depth && (r + 1 != other.depth || !parts[g].kind.Recursive?) {
        assert Holds(abspath[..], parts[g], segs[g]) && Holds(other.abspath[..], other.parts[r], other.segs[r]);
        assert abspath[..][parts[g].off..parts[g].off + parts[g].size] == abspath[parts[g].off..parts[g].off + parts[g].size];
        out := PartMatch(abspath, parts[g], other.abspath, other.parts[r].off, other.parts[r].size);
      }
    }

    /** Whether nothing but recursive parts is left. */
    method OnlyRecursive(from: nat) returns (out: bool)
      requires Valid() && from <= depth
      ensures out <==> OnlyRecursiveFrom(from)
    {
      var g := from;
      while g < depth
        invariant from <= g <= depth
        invariant forall k :: from <= k < g ==> parts[k].kind.Recursive?
      {
        if !parts[g].kind.Recursive? {
          return false;
        }
        g := g + 1;
      }
      out := true;
    }

    /** Splits `abs`, the absolute form of the path asked about, and matches. */
    method Match(abs: Option<Result<array<byte>>>, ghost glob: seq<byte>) returns (out: Result<bool>)
      requires Built(glob)
      requires abs.Some? && abs.value.Ok? ==>
                 IsAbsPath(abs.value.value[..]) && |Split(PathOf(abs.value.value[..])[1..])| <= MAX_DEPTH
      ensures abs.None? ==> out == Err(BadPath)
      ensures abs.Some? && abs.value.Err? ==> out == Err(abs.value.error)
      ensures abs.Some? && abs.value.Ok? ==> out == Ok(PathMatches(glob, PathOf(abs.value.value[..])))
    {
      var other := new Pathglob();
      var err := other.Init(abs);
      if err.Some? { return Err(err.value); }
      PathSegments(PathOf(other.abspath[..]));
      ElemsAreParts(glob);
      var found := Search(other);
      out := Ok(found);
    }

    lemma ElemsAreParts(glob: seq<byte>)
      requires Built(glob)
      ensures Elems() == Parts(Split(glob[1..]))
    {
    }
  }

  lemma PathSegments(path: seq<byte>)
    requires path != [] && 0 !in path
    ensures AreSegments(Split(path[1..]))
  {
    var segs := Split(path[1..]);
    SplitJoins(path[1..]);
    forall i | 0 <= i < |segs|
      ensures 0 !in segs[i]
    {
      if 0 in segs[i] {
        SegmentBytes(path[1..], i, 0);
      }
    }
  }

  // ----- Matching -----------------------------------------------------------------------------

  /** Single-star backtracking over the bytes of one segment. The byte after the part belongs to no
      segment, so it is safe to look at: it never matches. */
  method PatternMatch(a: array<byte>, part: Part, b: array<byte>, off: nat, size: nat) returns (out: bool)
    requires part.off + part.size < a.Length && off + size <= b.Length
    requires a[part.off + part.size] != STAR && a[part.off + part.size] !in b[off..off + size]
    ensures out <==> SegmentMatches(a[part.off..part.off + part.size], b[off..off + size])
  {
    hide Searching, Matches;
    ghost var g := a[part.off..part.off + part.size];
    ghost var p, s := Letters(g), b[off..off + size];
    var starG, starR := -1, 0;
    var glob, r := 0, 0;
    SearchStarts(Same, p, s);
    while r != size
      invariant 0 <= glob <= part.size && 0 <= r <= size && 0 <= starR <= r && starG <= glob
      invariant Searching(Same, p, s, glob, r, starG, starR)
      decreases part.size - starG, size - starR, part.size - glob
    {
      assert glob < part.size ==> g[glob] == a[part.off + glob];
      assert s[r] == b[off + r];
      if a[part.off + glob] == STAR {
        MeetStar(Same, p, s, glob, r, starG, starR);
        glob := glob + 1;
        starG, starR := glob, r;
        if glob == part.size {
          return true;
        }
      } else if b[off + r] == a[part.off + glob] {
        Advance(Same, p, s, glob, r, starG, starR);
        glob, r := glob + 1, r + 1;
      } else {
        Retreat(Same, p, s, glob, r, starG, starR);
        if starG < 0 {
          return false;
        }
        starR := starR + 1;
        r, glob := starR, starG;
      }
    }
    Finish(Same, p, s, glob, starG, starR);
    ghost var rest := glob;
    while a[part.off + glob] == STAR
      invariant rest <= glob <= part.size
      invariant forall k :: rest <= k < glob ==> g[k] == STAR
      decreases part.size - glob
    {
      assert glob < part.size ==> g[glob] == a[part.off + glob];
      glob := glob + 1;
    }
    assert forall k :: 0 <= k < |p[rest..]| ==> p[rest..][k] == p[rest + k];
    if glob < part.size {
      assert g[glob] == a[part.off + glob];
      assert p[rest..][glob - rest] == p[glob];
    }
    out := glob == part.size;
  }

  method PartMatch(a: array<byte>, part: Part, b: array<byte>, off: nat, size: nat) returns (out: bool)
    requires part.off + part.size < a.Length && off + size <= b.Length
    requires a[part.off + part.size] != STAR && a[part.off + part.size] !in b[off..off + size]
    requires part.kind.Verbatim? ==> STAR !in a[part.off..part.off + part.size]
    ensures part.kind.Recursive? ==> out
    ensures !part.kind.Recursive? ==>
              (out <==> SegmentMatches(a[part.off..part.off + part.size], b[off..off + size]))
  {
    match part.kind
    case Verbatim =>
      VerbatimIsEquality(a[part.off..part.off + part.size], b[off..off + size]);
      out := part.size == size && a[part.off..part.off + part.size] == b[off..off + size];
    case Pattern =>
      out := PatternMatch(a, part, b, off, size);
    case Recursive =>
      out := true;
  }

  // ----- The scan ------------------------------------------------------------------------------

  /** After `depth` parts, with the last slash at `recent` and everything before `iter` read. */
  ghost predicate Scanned(path: seq<byte>, depth: nat, recent: nat, iter: nat, hasStar: bool)
    requires path != []
  {
    var segs := Split(path[1..]);
    && recent < iter <= |path| && depth < |segs|
    && segs[depth..] == Split(path[recent + 1..])
    && SLASH !in path[recent + 1..iter]
    && (hasStar <==> AnyStar(segs[..depth]) || STAR in path[recent + 1..iter])
  }

  lemma HoldsPart(a: seq<byte>, recent: nat, iter: nat, kind: PartType)
    requires recent < iter < |a| && (a[iter] == SLASH || a[iter] == 0)
    ensures Holds(a, Part(recent + 1, iter - recent - 1, kind), a[..|a| - 1][recent + 1..iter])
  {
  }

  lemma ScanStarts(path: seq<byte>)
    requires path != []
    ensures Scanned(path, 0, 0, 1, false)
  {
  }

  lemma ScanLetter(path: seq<byte>, depth: nat, recent: nat, iter: nat, hasStar: bool)
    requires iter < |path| && Scanned(path, depth, recent, iter, hasStar) && path[iter] != SLASH
    ensures Scanned(path, depth, recent, iter + 1, hasStar || path[iter] == STAR)
  {
    assert path[recent + 1..iter + 1] == path[recent + 1..iter] + [path[iter]];
  }

  lemma ScanSlash(path: seq<byte>, depth: nat, recent: nat, iter: nat, hasStar: bool)
    requires iter < |path| && Scanned(path, depth, recent, iter, hasStar) && path[iter] == SLASH
    ensures Scanned(path, depth + 1, iter, iter + 1, hasStar)
    ensures depth + 1 < |Split(path[1..])| && Split(path[1..])[depth] == path[recent + 1..iter]
    ensures KindAt(Split(path[1..]), depth) ==
              if !hasStar then Verbatim
              else if iter == recent + 3 && path[recent + 1] == STAR && path[recent + 2] == STAR then Recursive
              else Pattern
  {
    hide Split, AnyStar;
    var segs := Split(path[1..]);
    var seg := path[recent + 1..iter];
    NextSegment(path, recent, iter);
    assert segs[depth] == segs[depth..][0] == seg;
    assert segs[depth + 1..] == segs[depth..][1..];
    assert segs[..depth + 1] == segs[..depth] + [seg];
    AnyStarGrows(segs[..depth], seg);
  }

  lemma ScanEnds(path: seq<byte>, depth: nat, recent: nat, hasStar: bool)
    requires path != [] && Scanned(path, depth, recent, |path|, hasStar)
    ensures depth + 1 == |Split(path[1..])| && Split(path[1..])[depth] == path[recent + 1..]
    ensures KindAt(Split(path[1..]), depth) == if hasStar then Pattern else Verbatim
  {
    hide Split, AnyStar;
    var segs := Split(path[1..]);
    var seg := path[recent + 1..];
    assert path[recent + 1..|path|] == seg;
    SplitLast(seg);
    assert segs[depth] == segs[depth..][0];
    assert segs[..depth + 1] == segs[..depth] + [seg];
    AnyStarGrows(segs[..depth], seg);
  }

  lemma NextSegment(path: seq<byte>, recent: nat, iter: nat)
    requires recent < iter < |path| && path[iter] == SLASH && SLASH !in path[recent + 1..iter]
    ensures Split(path[recent + 1..]) == [path[recent + 1..iter]] + Split(path[iter + 1..])
  {
    var s := path[recent + 1..];
    var n := iter - recent - 1;
    assert s[..n] == path[recent + 1..iter] && s[n + 1..] == path[iter + 1..];
    SplitAt(s, n);
  }
}
