/** Directory-enumeration wildcards: the greedy matcher that remembers only its last `*`. */
module Wildcard {

  /** The declarative glob relation: `*` stands for any run, `?` for any one character. */
  ghost predicate Glob(pat: seq<char>, txt: seq<char>)
    decreases |pat|
  {
    if pat == [] then txt == []
    else if pat[0] == '*' then exists k :: 0 <= k <= |txt| && Glob(pat[1..], txt[k..])
    else txt != [] && (pat[0] == '?' || pat[0] == txt[0]) && Glob(pat[1..], txt[1..])
  }

  /** The star-free run `seg` matches exactly the characters `txt`. */
  ghost predicate Literal(seg: seq<char>, txt: seq<char>) {
    && |seg| == |txt|
    && forall i :: 0 <= i < |seg| ==> seg[i] != '*' && (seg[i] == '?' || seg[i] == txt[i])
  }

  /** A star absorbs any prefix: a match of a later suffix is a match of an earlier one. */
  lemma StarAbsorbs(pat: seq<char>, txt: seq<char>, k: nat)
    requires pat != [] && pat[0] == '*' && k <= |txt| && Glob(pat, txt[k..])
    ensures Glob(pat, txt)
  {
    var j :| 0 <= j <= |txt[k..]| && Glob(pat[1..], txt[k..][j..]);
    assert txt[k..][j..] == txt[k + j..];
  }

  /** Matching one more place along: the star takes a character, or its tail matches here. */
  lemma StarStep(pat: seq<char>, txt: seq<char>)
    requires pat != [] && pat[0] == '*' && txt != []
    ensures Glob(pat, txt) <==> Glob(pat[1..], txt) || Glob(pat, txt[1..])
  {
    if Glob(pat, txt) {
      var k :| 0 <= k <= |txt| && Glob(pat[1..], txt[k..]);
      if k == 0 {
        assert txt[0..] == txt;
      } else {
        assert txt[1..][k - 1..] == txt[k..];
      }
    }
    if Glob(pat[1..], txt) { assert txt[0..] == txt; }
    if Glob(pat, txt[1..]) { StarAbsorbs(pat, txt, 1); }
  }

  /** A star-free prefix consumes exactly its own length. */
  lemma {:induction false} SegmentMatch(seg: seq<char>, rest: seq<char>, txt: seq<char>)
    requires '*' !in seg
    ensures Glob(seg + rest, txt) <==>
            |seg| <= |txt| && Literal(seg, txt[..|seg|]) && Glob(rest, txt[|seg|..])
    decreases |seg|
  {
    if seg == [] {
      assert seg + rest == rest && txt[0..] == txt;
    } else {
      assert (seg + rest)[1..] == seg[1..] + rest;
      if txt != [] {
        SegmentMatch(seg[1..], rest, txt[1..]);
        if |seg| <= |txt| {
          assert txt[1..][|seg| - 1..] == txt[|seg|..];
          var t := txt[..|seg|];
          assert txt[1..][..|seg| - 1] == t[1..];
          assert Literal(seg, t) <==> (seg[0] == '?' || seg[0] == t[0]) && Literal(seg[1..], t[1..]) by {
            if Literal(seg[1..], t[1..]) && (seg[0] == '?' || seg[0] == t[0]) {
              forall i | 0 <= i < |seg| ensures seg[i] != '*' && (seg[i] == '?' || seg[i] == t[i]) {
                if i > 0 { assert seg[i] == seg[1..][i - 1] && t[i] == t[1..][i - 1]; }
              }
            }
            if Literal(seg, t) {
              forall i | 0 <= i < |seg[1..]|
                ensures seg[1..][i] != '*' && (seg[1..][i] == '?' || seg[1..][i] == t[1..][i]) {
                assert seg[1..][i] == seg[i + 1] && t[1..][i] == t[i + 1];
              }
            }
          }
        }
      }
    }
  }

  /** Reaching a second star commits the first one to its leftmost placement. */
  lemma SecondStarCommits(seg: seq<char>, rest: seq<char>, txt: seq<char>)
    requires rest != [] && rest[0] == '*'
    requires |seg| <= |txt| && Literal(seg, txt[..|seg|])
    ensures Glob(['*'] + seg + rest, txt) <==> Glob(rest, txt[|seg|..])
  {
    var pat := ['*'] + seg + rest;
    assert pat[1..] == seg + rest;
    assert '*' !in seg;
    if Glob(pat, txt) {
      var k :| 0 <= k <= |txt| && Glob(pat[1..], txt[k..]);
      SegmentMatch(seg, rest, txt[k..]);
      assert txt[k..][|seg|..] == txt[|seg|..][k..];
      StarAbsorbs(rest, txt[|seg|..], k);
    }
    if Glob(rest, txt[|seg|..]) {
      SegmentMatch(seg, rest, txt);
      assert txt[0..] == txt;
    }
  }

  /** When the text runs out while a star's segment is in place, that placement is the only one left. */
  lemma TextExhausted(seg: seq<char>, rest: seq<char>, txt: seq<char>)
    requires Literal(seg, txt)
    ensures Glob(['*'] + seg + rest, txt) <==> Glob(rest, [])
  {
    var pat := ['*'] + seg + rest;
    assert pat[1..] == seg + rest;
    assert '*' !in seg && txt[..|seg|] == txt && txt[|seg|..] == [];
    if Glob(pat, txt) {
      var k :| 0 <= k <= |txt| && Glob(pat[1..], txt[k..]);
      SegmentMatch(seg, rest, txt[k..]);
      assert k == 0;
    }
    if Glob(rest, []) {
      SegmentMatch(seg, rest, txt);
      assert txt[0..] == txt;
    }
  }

  lemma {:induction false} OnlyStarsMatchEmpty(pat: seq<char>)
    ensures Glob(pat, []) <==> forall i :: 0 <= i < |pat| ==> pat[i] == '*'
    decreases |pat|
  {
    if pat != [] {
      OnlyStarsMatchEmpty(pat[1..]);
      var empty: seq<char> := [];
      assert empty[0..] == empty;
      assert forall i :: 1 <= i < |pat| ==> pat[i] == pat[1..][i - 1];
    }
  }

  /** What the loop knows: the committed star (if any), and the literal run matched after it. */
  ghost predicate Progress(pat: seq<char>, txt: seq<char>, star: int, starTxt: nat, pi: nat, ti: nat)
  {
    && pi <= |pat| && starTxt <= ti <= |txt| && -1 <= star < pi + 1
    && (star == -1 ==> (Glob(pat, txt) <==> Glob(pat[pi..], txt[ti..])))
    && (star >= 0 ==>
          && star < pi && pat[star] == '*' && ti - starTxt == pi - star - 1
          && Literal(pat[star + 1..pi], txt[starTxt..ti])
          && (Glob(pat, txt) <==> Glob(pat[star..], txt[starTxt..])))
  }

  /** Splitting a committed star's pattern into star, literal run and remainder. */
  lemma StarSplit(pat: seq<char>, star: nat, pi: nat)
    requires star < pi <= |pat| && pat[star] == '*'
    ensures pat[star..] == ['*'] + pat[star + 1..pi] + pat[pi..]
  {}

  lemma Advance(pat: seq<char>, txt: seq<char>, star: int, starTxt: nat, pi: nat, ti: nat)
    requires Progress(pat, txt, star, starTxt, pi, ti) && pi < |pat| && ti < |txt|
    requires pat[pi] != '*' && (pat[pi] == '?' || pat[pi] == txt[ti])
    ensures Progress(pat, txt, star, starTxt, pi + 1, ti + 1)
  {
    if star >= 0 {
      LiteralGrows(pat, txt, star + 1, pi, starTxt, ti);
    } else {
      GlobAdvances(pat, txt, pi, ti);
    }
  }

  lemma GlobAdvances(pat: seq<char>, txt: seq<char>, pi: nat, ti: nat)
    requires pi < |pat| && ti < |txt| && pat[pi] != '*' && (pat[pi] == '?' || pat[pi] == txt[ti])
    ensures Glob(pat[pi..], txt[ti..]) <==> Glob(pat[pi + 1..], txt[ti + 1..])
  {
    assert pat[pi..][1..] == pat[pi + 1..] && txt[ti..][1..] == txt[ti + 1..];
  }

  lemma LiteralGrows(pat: seq<char>, txt: seq<char>, pa: nat, pi: nat, ta: nat, ti: nat)
    requires pa <= pi < |pat| && ta <= ti < |txt| && Literal(pat[pa..pi], txt[ta..ti])
    requires pat[pi] != '*' && (pat[pi] == '?' || pat[pi] == txt[ti])
    ensures Literal(pat[pa..pi + 1], txt[ta..ti + 1])
  {
    assert pat[pa..pi + 1] == pat[pa..pi] + [pat[pi]];
    assert txt[ta..ti + 1] == txt[ta..ti] + [txt[ti]];
  }

  lemma Suffixes(s: seq<char>, a: nat, b: nat)
    requires a <= b <= |s|
    ensures s[a..][..b - a] == s[a..b] && s[a..][b - a..] == s[b..]
  {}

  /** What is left after one star and its literal run is what is left at the next star. */
  lemma NextStarCommits(pat: seq<char>, txt: seq<char>, star: nat, starTxt: nat, pi: nat, ti: nat)
    requires star < pi < |pat| && pat[star] == '*' && pat[pi] == '*' && starTxt <= ti <= |txt|
             && ti - starTxt == pi - star - 1
    requires Literal(pat[star + 1..pi], txt[starTxt..ti])
    ensures Glob(pat[star..], txt[starTxt..]) <==> Glob(pat[pi..], txt[ti..])
  {
    StarSplit(pat, star, pi);
    Suffixes(txt, starTxt, ti);
    SecondStarCommits(pat[star + 1..pi], pat[pi..], txt[starTxt..]);
  }

  lemma TakeStar(pat: seq<char>, txt: seq<char>, star: int, starTxt: nat, pi: nat, ti: nat)
    requires Progress(pat, txt, star, starTxt, pi, ti) && pi < |pat| && ti < |txt| && pat[pi] == '*'
    ensures Progress(pat, txt, pi, ti, pi + 1, ti)
  {
    if star >= 0 { NextStarCommits(pat, txt, star, starTxt, pi, ti); }
    StarCommitted(pat, txt, pi, ti);
  }

  /** A star that has just been taken is committed with an empty literal run. */
  lemma StarCommitted(pat: seq<char>, txt: seq<char>, pi: nat, ti: nat)
    requires pi < |pat| && ti <= |txt| && pat[pi] == '*'
    requires Glob(pat, txt) <==> Glob(pat[pi..], txt[ti..])
    ensures Progress(pat, txt, pi, ti, pi + 1, ti)
  {
    assert pat[pi + 1..pi + 1] == [] && txt[ti..ti] == [];
  }

  /** A mismatch after a star rules out the star's current placement, and only that one. */
  lemma Backtrack(pat: seq<char>, txt: seq<char>, star: nat, starTxt: nat, pi: nat, ti: nat)
    requires Progress(pat, txt, star, starTxt, pi, ti) && ti < |txt|
    requires pi < |pat| ==> pat[pi] != '*' && pat[pi] != '?' && pat[pi] != txt[ti]
    ensures Progress(pat, txt, star, starTxt + 1, star + 1, starTxt + 1)
  {
    var p, t := pat[star..], txt[starTxt..];
    StarStep(p, t);
    assert t[1..] == txt[starTxt + 1..];
    assert !Glob(p[1..], t) by {
      var seg := pat[star + 1..pi];
      assert p[1..] == seg + pat[pi..];
      assert '*' !in seg;
      SegmentMatch(seg, pat[pi..], t);
      assert t[|seg|..] == txt[ti..];
    }
    assert pat[star + 1..star + 1] == [] && txt[starTxt + 1..starTxt + 1] == [];
  }

  /** With the text used up, what is left of the pattern decides. */
  lemma TextUsedUp(pat: seq<char>, txt: seq<char>, star: int, starTxt: nat, pi: nat)
    requires Progress(pat, txt, star, starTxt, pi, |txt|)
    ensures Glob(pat, txt) <==> forall i :: pi <= i < |pat| ==> pat[i] == '*'
  {
    LeftOver(pat, txt, star, starTxt, pi);
    OnlyStarsMatchEmpty(pat[pi..]);
    assert forall i :: pi <= i < |pat| ==> pat[i] == pat[pi..][i - pi];
    assert forall i :: 0 <= i < |pat| - pi ==> pat[pi..][i] == pat[i + pi];
  }

  lemma LeftOver(pat: seq<char>, txt: seq<char>, star: int, starTxt: nat, pi: nat)
    requires Progress(pat, txt, star, starTxt, pi, |txt|)
    ensures Glob(pat, txt) <==> Glob(pat[pi..], [])
  {
    if star >= 0 {
      Whole(txt, starTxt);
      CommittedLeftOver(pat, txt[starTxt..], star, pi);
    } else {
      Whole(txt, |txt|);
    }
  }

  /** A committed star whose literal run takes the whole rest leaves its remainder to the empty text. */
  lemma CommittedLeftOver(pat: seq<char>, rest: seq<char>, star: nat, pi: nat)
    requires star < pi <= |pat| && pat[star] == '*' && Literal(pat[star + 1..pi], rest)
    ensures Glob(pat[star..], rest) <==> Glob(pat[pi..], [])
  {
    StarSplit(pat, star, pi);
    TextExhausted(pat[star + 1..pi], pat[pi..], rest);
  }

  lemma Whole(s: seq<char>, a: nat)
    requires a <= |s|
    ensures s[a..|s|] == s[a..] && s[|s|..] == []
  {}

  /** The greedy loop decides the declarative relation, for every pattern and every text. */
  method MatchesFrom(pat: seq<char>, txt: seq<char>) returns (matched: bool)
    ensures matched <==> Glob(pat, txt)
  {
    var pi, ti := 0, 0;
    var star, starTxt := -1, 0;
    assert pat[0..] == pat && txt[0..] == txt;
    while ti < |txt|
      invariant Progress(pat, txt, star, starTxt, pi, ti)
      decreases |pat| - star, |txt| - starTxt, |txt| - ti
    {
      if pi < |pat| && pat[pi] == '*' {
        TakeStar(pat, txt, star, starTxt, pi, ti);
        star, starTxt, pi := pi, ti, pi + 1;
      } else if pi < |pat| && (pat[pi] == '?' || pat[pi] == txt[ti]) {
        Advance(pat, txt, star, starTxt, pi, ti);
        pi, ti := pi + 1, ti + 1;
      } else if star >= 0 {
        Backtrack(pat, txt, star, starTxt, pi, ti);
        pi, starTxt := star + 1, starTxt + 1;
        ti := starTxt;
      } else {
        return false;
      }
    }
    TextUsedUp(pat, txt, star, starTxt, pi);
    ghost var from := pi;
    while pi < |pat| && pat[pi] == '*'
      invariant from <= pi <= |pat|
      invariant forall i :: from <= i < pi ==> pat[i] == '*'
    {
      pi := pi + 1;
    }
    return pi == |pat|;
  }
}
