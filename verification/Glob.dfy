/** Matching a pattern with stars against a text, over any relation between their elements. Both
    levels of path globbing are instances: bytes within a segment, and segments within a path. */
module Glob {

  /** A star absorbs any number of text elements; the others fit exactly one each. */
  datatype Elem<X> = Star | One(x: X)

  predicate Matches<X, Y>(fits: (X, Y) -> bool, p: seq<Elem<X>>, s: seq<Y>)
    decreases |p|, |s|
  {
    if p == [] then s == []
    else if p[0].Star? then Matches(fits, p[1..], s) || (s != [] && Matches(fits, p, s[1..]))
    else s != [] && fits(p[0].x, s[0]) && Matches(fits, p[1..], s[1..])
  }

  // ----- What a match means -------------------------------------------------------------

  function Concat<Y>(pieces: seq<seq<Y>>): seq<Y> {
    if pieces == [] then [] else pieces[0] + Concat(pieces[1..])
  }

  /** One piece of text for each element of the pattern: any for a star, a single fitting element
      for the others. */
  predicate Assigns<X, Y>(fits: (X, Y) -> bool, p: seq<Elem<X>>, pieces: seq<seq<Y>>) {
    |pieces| == |p| &&
    forall i :: 0 <= i < |p| && p[i].One? ==> |pieces[i]| == 1 && fits(p[i].x, pieces[i][0])
  }

  lemma {:induction false} MatchHasPieces<X, Y>(fits: (X, Y) -> bool, p: seq<Elem<X>>, s: seq<Y>)
    returns (pieces: seq<seq<Y>>)
    requires Matches(fits, p, s)
    ensures Assigns(fits, p, pieces) && Concat(pieces) == s
    decreases |p|, |s|
  {
    if p == [] {
      pieces := [];
    } else if p[0].Star? && !Matches(fits, p[1..], s) {
      var rest := MatchHasPieces(fits, p, s[1..]);
      pieces := [[s[0]] + rest[0]] + rest[1..];
      assert pieces[1..] == rest[1..];
    } else {
      var n := if p[0].Star? then 0 else 1;
      var rest := MatchHasPieces(fits, p[1..], s[n..]);
      pieces := [s[..n]] + rest;
      assert pieces[1..] == rest;
    }
  }

  lemma {:induction false} PiecesMatch<X, Y>(fits: (X, Y) -> bool, p: seq<Elem<X>>, pieces: seq<seq<Y>>)
    requires Assigns(fits, p, pieces)
    ensures Matches(fits, p, Concat(pieces))
    decreases |p|, |Concat(pieces)|
  {
    if p == [] {
    } else if p[0].Star? && pieces[0] != [] {
      var less := [pieces[0][1..]] + pieces[1..];
      assert less[1..] == pieces[1..];
      assert Concat(pieces)[1..] == Concat(less);
      PiecesMatch(fits, p, less);
    } else {
      PiecesMatch(fits, p[1..], pieces[1..]);
      assert Concat(pieces)[|pieces[0]|..] == Concat(pieces[1..]);
    }
  }

  /** A pattern matches exactly when texts can be assigned to its stars that make it the text. */
  lemma {:induction false} MatchesIffAssigned<X, Y>(fits: (X, Y) -> bool, p: seq<Elem<X>>, s: seq<Y>)
    ensures Matches(fits, p, s) <==> exists pieces :: Assigns(fits, p, pieces) && Concat(pieces) == s
  {
    if Matches(fits, p, s) {
      var pieces := MatchHasPieces(fits, p, s);
    }
    if pieces :| Assigns(fits, p, pieces) && Concat(pieces) == s {
      PiecesMatch(fits, p, pieces);
    }
  }

  // ----- Why backing up to the last star is enough ------------------------------------------

  /** A pattern behind a star matches a text when it matches any end of it. */
  lemma {:induction false} StarSkips<X, Y>(fits: (X, Y) -> bool, p: seq<Elem<X>>, s: seq<Y>, k: nat)
    requires k <= |s|
    requires p != [] && p[0].Star? && Matches(fits, p, s[k..])
    ensures Matches(fits, p, s)
    decreases k
  {
    if k == 0 {
      assert s[0..] == s;
    } else {
      assert s[1..][k - 1..] == s[k..];
      StarSkips(fits, p, s[1..], k - 1);
    }
  }

  /** Behind a star, once nothing matches from here on, everything depends on the rest. */
  lemma StarRetries<X, Y>(fits: (X, Y) -> bool, p: seq<Elem<X>>, s: seq<Y>)
    requires p != [] && p[0].Star? && s != [] && !Matches(fits, p[1..], s)
    ensures Matches(fits, p, s) <==> Matches(fits, p, s[1..])
  {
  }

  /** The elements of a star-free pattern fit the text one by one. */
  predicate FitsEach<X, Y>(fits: (X, Y) -> bool, q: seq<Elem<X>>, s: seq<Y>) {
    |q| == |s| && forall i :: 0 <= i < |q| ==> q[i].One? && fits(q[i].x, s[i])
  }

  /** A star-free beginning takes as many elements as it has. */
  lemma {:induction false} Prefix<X, Y>(fits: (X, Y) -> bool, q: seq<Elem<X>>, p: seq<Elem<X>>, t: seq<Y>, s: seq<Y>)
    requires FitsEach(fits, q, t)
    ensures Matches(fits, q + p, t + s) <==> Matches(fits, p, s)
    decreases |q|
  {
    if q == [] {
      assert q + p == p && t + s == s;
    } else {
      assert (q + p)[1..] == q[1..] + p && (t + s)[1..] == t[1..] + s;
      Prefix(fits, q[1..], p, t[1..], s);
    }
  }

  /** Wherever a star-free beginning is placed, what follows it starts that much later. */
  lemma {:induction false} PrefixTakes<X, Y>(fits: (X, Y) -> bool, q: seq<Elem<X>>, p: seq<Elem<X>>, s: seq<Y>)
    requires forall i :: 0 <= i < |q| ==> q[i].One?
    requires Matches(fits, q + p, s)
    ensures |q| <= |s| && Matches(fits, p, s[|q|..])
    decreases |q|
  {
    if q == [] {
      assert q + p == p && s[0..] == s;
    } else {
      assert (q + p)[1..] == q[1..] + p && (q + p)[0] == q[0];
      PrefixTakes(fits, q[1..], p, s[1..]);
      assert s[1..][|q| - 1..] == s[|q|..];
    }
  }

  /** A match behind a star starts somewhere. */
  lemma {:induction false} StarStarts<X, Y>(fits: (X, Y) -> bool, p: seq<Elem<X>>, s: seq<Y>) returns (k: nat)
    requires p != [] && p[0].Star? && Matches(fits, p, s)
    ensures k <= |s| && Matches(fits, p[1..], s[k..])
    decreases |s|
  {
    if Matches(fits, p[1..], s) {
      k := 0;
      assert s[0..] == s;
    } else {
      k := StarStarts(fits, p, s[1..]);
      assert s[1..][k..] == s[k + 1..];
      k := k + 1;
    }
  }

  /** The greedy step: once the elements between two stars have been placed, the first star need
      never be looked at again. */
  lemma {:induction false} FirstPlaceSuffices<X, Y>(fits: (X, Y) -> bool, q: seq<Elem<X>>, p: seq<Elem<X>>, t: seq<Y>, s: seq<Y>)
    requires FitsEach(fits, q, t)
    requires p != [] && p[0].Star?
    ensures Matches(fits, [Star] + q + p, t + s) <==> Matches(fits, p, s)
  {
    var all := [Star] + q + p;
    assert all[1..] == q + p;
    if Matches(fits, p, s) {
      Prefix(fits, q, p, t, s);
    }
    if Matches(fits, all, t + s) {
      var k := StarStarts(fits, all, t + s);
      PrefixTakes(fits, q, p, (t + s)[k..]);
      assert (t + s)[k..][|q|..] == s[k..];
      StarSkips(fits, p, s, k);
    }
  }

  /** Elements that are not stars need as many text elements. */
  function Ones<X>(p: seq<Elem<X>>): (n: nat) {
    if p == [] then 0 else (if p[0].One? then 1 else 0) + Ones(p[1..])
  }

  lemma {:induction false} NeedsOnes<X, Y>(fits: (X, Y) -> bool, p: seq<Elem<X>>, s: seq<Y>)
    requires Matches(fits, p, s)
    ensures Ones(p) <= |s|
    decreases |p|, |s|
  {
    if p != [] {
      if p[0].One? {
        NeedsOnes(fits, p[1..], s[1..]);
      } else if Matches(fits, p[1..], s) {
        NeedsOnes(fits, p[1..], s);
      } else {
        NeedsOnes(fits, p, s[1..]);
      }
    }
  }

  lemma {:induction false} OnesOf<X>(q: seq<Elem<X>>, p: seq<Elem<X>>)
    requires forall i :: 0 <= i < |q| ==> q[i].One?
    ensures Ones(q + p) == |q| + Ones(p)
    decreases |q|
  {
    if q == [] {
      assert q + p == p;
    } else {
      assert (q + p)[1..] == q[1..] + p;
      OnesOf(q[1..], p);
    }
  }

  predicate AllStars<X>(p: seq<Elem<X>>) {
    forall i :: 0 <= i < |p| ==> p[i].Star?
  }

  lemma {:induction false} EmptyText<X, Y>(fits: (X, Y) -> bool, p: seq<Elem<X>>)
    ensures Matches(fits, p, []) <==> AllStars(p)
    ensures Ones(p) == 0 <==> AllStars(p)
    decreases |p|
  {
    if p != [] {
      EmptyText(fits, p[1..]);
      assert forall i :: 1 <= i < |p| ==> p[i] == p[1..][i - 1];
    }
  }

  lemma {:induction false} StarTakesAll<X, Y>(fits: (X, Y) -> bool, s: seq<Y>)
    ensures Matches(fits, [Star], s)
    decreases |s|
  {
    if s != [] {
      StarTakesAll(fits, s[1..]);
    }
  }

  predicate AllOnes<X>(q: seq<Elem<X>>) {
    forall i :: 0 <= i < |q| ==> q[i].One?
  }

  /** Without a star, a match is element by element. */
  lemma {:induction false} OnesMean<X, Y>(fits: (X, Y) -> bool, q: seq<Elem<X>>, s: seq<Y>)
    requires AllOnes(q)
    ensures Matches(fits, q, s) <==> FitsEach(fits, q, s)
    decreases |q|
  {
    if q != [] && s != [] {
      OnesMean(fits, q[1..], s[1..]);
      if FitsEach(fits, q[1..], s[1..]) && fits(q[0].x, s[0]) {
        assert forall i :: 1 <= i < |q| ==> q[i] == q[1..][i - 1] && s[i] == s[1..][i - 1];
      }
    }
  }

  lemma {:induction false} PrefixFits<X, Y>(fits: (X, Y) -> bool, q: seq<Elem<X>>, p: seq<Elem<X>>, s: seq<Y>)
    requires AllOnes(q) && Matches(fits, q + p, s)
    ensures |q| <= |s| && FitsEach(fits, q, s[..|q|])
    decreases |q|
  {
    if q != [] {
      assert (q + p)[1..] == q[1..] + p && (q + p)[0] == q[0];
      PrefixFits(fits, q[1..], p, s[1..]);
      assert forall i :: 1 <= i < |q| ==> q[i] == q[1..][i - 1] && s[i] == s[1..][i - 1];
    }
  }

  lemma OneStarSplits<X, Y>(fits: (X, Y) -> bool, pre: seq<Elem<X>>, tail: seq<Elem<X>>, s: seq<Y>)
    requires AllOnes(pre) && tail != [] && tail[0].Star? && AllOnes(tail[1..]) && Matches(fits, pre + tail, s)
    ensures var n := |tail| - 1;
            |pre| + n <= |s| && FitsEach(fits, pre, s[..|pre|]) && FitsEach(fits, tail[1..], s[|s| - n..])
  {
    hide Matches;
    PrefixFits(fits, pre, tail, s);
    PrefixTakes(fits, pre, tail, s);
    var rest := s[|pre|..];
    var k := StarStarts(fits, tail, rest);
    OnesMean(fits, tail[1..], rest[k..]);
    assert rest[k..] == s[|pre| + k..] && |rest[k..]| == |tail| - 1;
  }

  lemma OneStarJoins<X, Y>(fits: (X, Y) -> bool, pre: seq<Elem<X>>, tail: seq<Elem<X>>, s: seq<Y>)
    requires AllOnes(pre) && tail != [] && tail[0].Star? && AllOnes(tail[1..]) && |pre| + |tail| - 1 <= |s|
    requires FitsEach(fits, pre, s[..|pre|]) && FitsEach(fits, tail[1..], s[|s| - (|tail| - 1)..])
    ensures Matches(fits, pre + tail, s)
  {
    hide FitsEach;
    var rest := s[|pre|..];
    var k := |s| - |pre| - (|tail| - 1);
    assert rest[k..] == s[|s| - (|tail| - 1)..];
    OnesMean(fits, tail[1..], rest[k..]);
    StarSkips(fits, tail, rest, k);
    assert s == s[..|pre|] + rest;
    Prefix(fits, pre, tail, s[..|pre|], rest);
  }

  /** With one star, the text begins as the pattern does before the star and ends as it does behind it, and
      in between there may be anything. */
  lemma OneStarMeans<X, Y>(fits: (X, Y) -> bool, pre: seq<Elem<X>>, post: seq<Elem<X>>, s: seq<Y>)
    requires AllOnes(pre) && AllOnes(post)
    ensures Matches(fits, pre + [Star] + post, s) <==>
              (&& |pre| + |post| <= |s|
               && FitsEach(fits, pre, s[..|pre|]) && FitsEach(fits, post, s[|s| - |post|..]))
  {
    hide Matches, FitsEach;
    var tail := [Star] + post;
    assert pre + [Star] + post == pre + tail && tail[1..] == post;
    if Matches(fits, pre + tail, s) {
      OneStarSplits(fits, pre, tail, s);
    }
    if |pre| + |post| <= |s| && FitsEach(fits, pre, s[..|pre|]) && FitsEach(fits, post, s[|s| - |post|..]) {
      OneStarJoins(fits, pre, tail, s);
    }
  }

  // ----- The backtracking search as a state ---------------------------------------------------

  /** Where the search stands: the pattern and text positions, and the pattern position after the
      last star with the text position it was last tried from; `starG` is negative before any
      star. The whole question has become what is left behind the last star. */
  ghost predicate Searching<X(!new), Y(!new)>(fits: (X, Y) -> bool, p: seq<Elem<X>>, s: seq<Y>,
                                  g: nat, r: nat, starG: int, starR: nat) {
    && g <= |p| && r <= |s| && starR <= r
    && if starG < 0 then
         starR == 0 && FitsEach(fits, p[..g], s[..r])
       else
         && 1 <= starG <= g && p[starG - 1].Star?
         && FitsEach(fits, p[starG..g], s[starR..r])
         && (Matches(fits, p, s) <==> Matches(fits, p[starG - 1..], s[starR..]))
  }

  lemma SearchStarts<X(!new), Y(!new)>(fits: (X, Y) -> bool, p: seq<Elem<X>>, s: seq<Y>)
    ensures Searching(fits, p, s, 0, 0, -1, 0)
  {
  }

  /** What is left of the search decides, once the question is put at the present position. */
  lemma Standing<X(!new), Y(!new)>(fits: (X, Y) -> bool, p: seq<Elem<X>>, s: seq<Y>, g: nat, r: nat, starG: int, starR: nat)
    requires Searching(fits, p, s, g, r, starG, starR)
    ensures starG < 0 ==> (Matches(fits, p, s) <==> Matches(fits, p[g..], s[r..]))
    ensures starG >= 0 ==> (Matches(fits, p[starG..], s[starR..]) <==> Matches(fits, p[g..], s[r..]))
  {
    if starG < 0 {
      assert p == p[..g] + p[g..] && s == s[..r] + s[r..];
      Prefix(fits, p[..g], p[g..], s[..r], s[r..]);
    } else {
      assert p[starG..] == p[starG..g] + p[g..] && s[starR..] == s[starR..r] + s[r..];
      Prefix(fits, p[starG..g], p[g..], s[starR..r], s[r..]);
    }
  }

  /** Meeting a star. */
  lemma MeetStar<X(!new), Y(!new)>(fits: (X, Y) -> bool, p: seq<Elem<X>>, s: seq<Y>, g: nat, r: nat, starG: int, starR: nat)
    requires Searching(fits, p, s, g, r, starG, starR) && g < |p| && p[g].Star?
    ensures Searching(fits, p, s, g + 1, r, g + 1, r)
    ensures g + 1 == |p| ==> Matches(fits, p, s)
  {
    if starG < 0 {
      Standing(fits, p, s, g, r, starG, starR);
    } else {
      assert p[starG - 1..] == [Star] + p[starG..g] + p[g..] && s[starR..] == s[starR..r] + s[r..];
      FirstPlaceSuffices(fits, p[starG..g], p[g..], s[starR..r], s[r..]);
    }
    if g + 1 == |p| {
      assert p[g..] == [Star];
      StarTakesAll(fits, s[r..]);
    }
  }

  predicate FitsAt<X, Y>(fits: (X, Y) -> bool, p: seq<Elem<X>>, s: seq<Y>, g: nat, r: nat) {
    g < |p| && r < |s| && p[g].One? && fits(p[g].x, s[r])
  }

  /** One more element fits. */
  lemma Advance<X(!new), Y(!new)>(fits: (X, Y) -> bool, p: seq<Elem<X>>, s: seq<Y>, g: nat, r: nat, starG: int, starR: nat)
    requires Searching(fits, p, s, g, r, starG, starR)
    requires FitsAt(fits, p, s, g, r)
    ensures Searching(fits, p, s, g + 1, r + 1, starG, starR)
  {
    if starG < 0 {
      assert p[..g + 1] == p[..g] + [p[g]] && s[..r + 1] == s[..r] + [s[r]];
    } else {
      assert p[starG..g + 1] == p[starG..g] + [p[g]] && s[starR..r + 1] == s[starR..r] + [s[r]];
    }
  }

  /** The text goes on but the pattern does not fit it here. */
  predicate Stuck<X, Y>(fits: (X, Y) -> bool, p: seq<Elem<X>>, s: seq<Y>, g: nat, r: nat) {
    r < |s| && g <= |p| && (g < |p| ==> p[g].One? && !fits(p[g].x, s[r]))
  }

  /** Getting stuck: without a star there is no match, with one it is tried one further on. */
  lemma Retreat<X(!new), Y(!new)>(fits: (X, Y) -> bool, p: seq<Elem<X>>, s: seq<Y>, g: nat, r: nat, starG: int, starR: nat)
    requires Searching(fits, p, s, g, r, starG, starR) && Stuck(fits, p, s, g, r)
    ensures starG < 0 ==> !Matches(fits, p, s)
    ensures starG >= 0 ==> Searching(fits, p, s, starG, starR + 1, starG, starR + 1)
  {
    Standing(fits, p, s, g, r, starG, starR);
    assert !Matches(fits, p[g..], s[r..]);
    if starG >= 0 {
      assert p[starG - 1..][1..] == p[starG..] && s[starR..][1..] == s[starR + 1..];
      StarRetries(fits, p[starG - 1..], s[starR..]);
    }
  }

  /** The text is used up: what is left of the pattern must be stars. */
  lemma Finish<X(!new), Y(!new)>(fits: (X, Y) -> bool, p: seq<Elem<X>>, s: seq<Y>, g: nat, starG: int, starR: nat)
    requires Searching(fits, p, s, g, |s|, starG, starR)
    ensures Matches(fits, p, s) <==> AllStars(p[g..])
  {
    Standing(fits, p, s, g, |s|, starG, starR);
    EmptyText(fits, p[g..]);
    assert s[|s|..] == [];
    if starG >= 0 {
      var tail := p[starG - 1..];
      assert tail[1..] == p[starG..g] + p[g..];
      OnesOf(p[starG..g], p[g..]);
      if Matches(fits, tail, s[starR..]) {
        NeedsOnes(fits, tail, s[starR..]);
      }
    }
  }
}
