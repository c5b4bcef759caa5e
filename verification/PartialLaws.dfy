/**
 What a partial match means: how far the tokens of a pattern can follow a path.
 */
module PartialLaws {
  import opened Bytes
  import opened PatternSpec
  import opened BraceLaws
  import opened ParentPath

  /** A token takes the first `j` bytes of what is left of the path. A gap only stops where it starts or at a slash. */
  predicate Takes(t: Token, s: bytes, j: nat)
    requires j <= |s|
  {
    && Consumes(t, s[..j])
    && (t.OneOf? ==> Choice(t.alts, s) == Some(s[..j]))
    && (t.Gap? ==> j == 0 || (j < |s| && s[j] == SLASH))
  }

  /** The first `m` tokens take the first `k` bytes of the path. */
  ghost predicate Reaches(ts: seq<Token>, s: bytes, m: nat, k: nat)
    requires m <= |ts| && k <= |s|
    decreases m
  {
    if m == 0 then k == 0
    else exists j | 0 <= j <= k :: Takes(ts[0], s, j) && Reaches(ts[1..], s[j..], m - 1, k - j)
  }

  /** The matcher stops at a token: the path ends before it, or does not fit it as a bracket or brace list. */
  predicate Stops(t: Token, s: bytes) {
    match t
    case Lit(_) => s == []
    case AnyChar => s == []
    case Class(negated, ranges) => s == [] || InRanges(s[0], ranges) == negated
    case OneOf(alts) => Choice(alts, s) == None
    case OpenBracket => true
    case _ => false
  }

  /** The tokens take the whole path, or some of them lead up to a token where the matcher stops. */
  ghost predicate Follows(ts: seq<Token>, s: bytes) {
    exists m, k | 0 <= m <= |ts| && 0 <= k <= |s| :: Reaches(ts, s, m, k) && Final(ts, s, m, k)
  }

  predicate Final(ts: seq<Token>, s: bytes, m: nat, k: nat)
    requires m <= |ts| && k <= |s|
  {
    if m == |ts| then k == |s| else Stops(ts[m], s[k..])
  }

  lemma FollowsNothing(s: bytes)
    ensures Follows([], s) <==> s == []
  {
    assert s == [] ==> Reaches([], s, 0, 0) && Final([], s, 0, 0);
  }

  lemma ReachesNothing(ts: seq<Token>, s: bytes)
    ensures Reaches(ts, s, 0, 0)
  {
  }

  lemma ReachesMore(ts: seq<Token>, s: bytes, j: nat, m: nat, k: nat)
    requires ts != [] && j <= |s| && m < |ts| && j + k <= |s|
    requires Takes(ts[0], s, j) && Reaches(ts[1..], s[j..], m, k)
    ensures Reaches(ts, s, m + 1, j + k)
  {
    hide Takes;
    assert j + k - j == k;
  }

  lemma ReachesFirst(ts: seq<Token>, s: bytes, m: nat, k: nat) returns (j: nat)
    requires 0 < m <= |ts| && k <= |s| && Reaches(ts, s, m, k)
    ensures j <= k && Takes(ts[0], s, j) && Reaches(ts[1..], s[j..], m - 1, k - j)
  {
    hide Takes;
    j :| 0 <= j <= k && Takes(ts[0], s, j) && Reaches(ts[1..], s[j..], m - 1, k - j);
  }

  lemma FinalStep(ts: seq<Token>, s: bytes, j: nat, m: nat, k: nat)
    requires ts != [] && j <= |s| && m < |ts| && j + k <= |s|
    ensures Final(ts, s, m + 1, j + k) <==> Final(ts[1..], s[j..], m, k)
  {
    hide Stops;
    assert s[j..][k..] == s[j + k..];
  }

  lemma FinalFirst(ts: seq<Token>, s: bytes, k: nat)
    requires ts != [] && k <= |s|
    ensures Final(ts, s, 0, k) <==> Stops(ts[0], s[k..])
  {
  }

  lemma FollowsIntro(ts: seq<Token>, s: bytes, m: nat, k: nat)
    requires m <= |ts| && k <= |s| && Reaches(ts, s, m, k) && Final(ts, s, m, k)
    ensures Follows(ts, s)
  {
    hide Reaches, Final;
  }

  lemma FollowsElim(ts: seq<Token>, s: bytes) returns (m: nat, k: nat)
    requires Follows(ts, s)
    ensures m <= |ts| && k <= |s| && Reaches(ts, s, m, k) && Final(ts, s, m, k)
    ensures m == 0 ==> k == 0
  {
    hide Final, Takes;
    m, k :| 0 <= m <= |ts| && 0 <= k <= |s| && Reaches(ts, s, m, k) && Final(ts, s, m, k);
  }

  /** The first token stops the matcher, or takes something and the others follow the rest. */
  lemma FollowsStep(ts: seq<Token>, s: bytes)
    requires ts != []
    ensures Follows(ts, s) <==>
            Stops(ts[0], s) || exists j | 0 <= j <= |s| :: Takes(ts[0], s, j) && Follows(ts[1..], s[j..])
  {
    hide *;
    assert s[0..] == s;
    FinalFirst(ts, s, 0);
    if Follows(ts, s) {
      var m, k := FollowsElim(ts, s);
      if m > 0 {
        var j := ReachesFirst(ts, s, m, k);
        FinalStep(ts, s, j, m - 1, k - j);
        FollowsIntro(ts[1..], s[j..], m - 1, k - j);
      }
    }
    if Stops(ts[0], s) {
      ReachesNothing(ts, s);
      FollowsIntro(ts, s, 0, 0);
    }
    if exists j | 0 <= j <= |s| :: Takes(ts[0], s, j) && Follows(ts[1..], s[j..]) {
      var j :| 0 <= j <= |s| && Takes(ts[0], s, j) && Follows(ts[1..], s[j..]);
      var m, k := FollowsElim(ts[1..], s[j..]);
      ReachesMore(ts, s, j, m, k);
      FinalStep(ts, s, j, m, k);
      FollowsIntro(ts, s, m + 1, j + k);
    }
  }

  lemma {:induction false} SegmentFinds(p: bytes, n: nat, s: bytes) returns (k: nat)
    requires n <= |p| && FurthestInSegment(p, n, s) != NO_MATCH
    ensures k <= |s| && SLASH !in s[..k] && Walk(p, n, s[k..]) != NO_MATCH
    decreases |s|
  {
    if Walk(p, n, s) != NO_MATCH {
      k := 0;
      assert s[0..] == s;
    } else {
      k := SegmentFinds(p, n, s[1..]);
      assert s[..k + 1] == [s[0]] + s[1..][..k] && s[k + 1..] == s[1..][k..];
      k := k + 1;
    }
  }

  lemma {:induction false} SlashFinds(p: bytes, n: nat, s: bytes) returns (k: nat)
    requires n <= |p| && FurthestAtSlash(p, n, s) != NO_MATCH
    ensures k <= |s| && (k == 0 || (k < |s| && s[k] == SLASH)) && Walk(p, n, s[k..]) != NO_MATCH
    decreases |s|
  {
    hide *;
    if Walk(p, n, s) != NO_MATCH {
      k := 0;
      assert s[0..] == s;
    } else {
      LaterSlash(p, n, s);
      var e := Find(s, 1, SLASH);
      k := SlashFinds(p, n, s[e..]);
      assert s[e..][k..] == s[e + k..] && (k < |s[e..]| ==> s[e + k] == s[e..][k]);
      k := e + k;
    }
  }

  lemma LaterSlash(p: bytes, n: nat, s: bytes)
    requires n <= |p| && FurthestAtSlash(p, n, s) != NO_MATCH && Walk(p, n, s) == NO_MATCH
    ensures s != []
    ensures var e := Find(s, 1, SLASH); 1 <= e < |s| && s[e] == SLASH && FurthestAtSlash(p, n, s[e..]) != NO_MATCH
  {
    hide Walk, Find;
  }

  /** One token at a time, the matcher returns a position exactly when the path can be followed. */
  lemma {:induction false} WalkFollows(p: bytes, i: nat, s: bytes)
    requires i <= |p|
    ensures Walk(p, i, s) != NO_MATCH <==> Follows(Tokens(p, i), s)
    decreases |p| - i
  {
    var ts := Tokens(p, i);
    if i == |p| {
      FollowsNothing(s);
    } else {
      var (t, n) := Lex(p, i);
      assert ts == [t] + Tokens(p, n) && ts[1..] == Tokens(p, n);
      FollowsStep(ts, s);
      forall j | 0 <= j <= |s| ensures Walk(p, n, s[j..]) != NO_MATCH <==> Follows(ts[1..], s[j..]) {
        WalkFollows(p, n, s[j..]);
      }
      if t.Star? {
        FollowStar(p, n, s, ts);
      } else if t.Gap? {
        FollowGap(p, n, s, ts);
      } else if t.OneOf? {
        WalkBrace(p, i, t.alts, n, s);
        FollowOneOf(p, i, n, s, ts);
      } else {
        FollowOne(p, i, n, s, ts);
      }
    }
  }

  lemma FollowStar(p: bytes, n: nat, s: bytes, ts: seq<Token>)
    requires n <= |p| && ts != [] && ts[0] == Star && ts[1..] == Tokens(p, n)
    requires forall j | 0 <= j <= |s| :: Walk(p, n, s[j..]) != NO_MATCH <==> Follows(ts[1..], s[j..])
    ensures FurthestInSegment(p, n, s) != NO_MATCH <==>
            exists j | 0 <= j <= |s| :: Takes(ts[0], s, j) && Follows(ts[1..], s[j..])
  {
    hide Walk, FurthestInSegment, Follows, Tokens;
    if FurthestInSegment(p, n, s) != NO_MATCH {
      var k := SegmentFinds(p, n, s);
      assert Takes(ts[0], s, k);
    }
    if exists j | 0 <= j <= |s| :: Takes(ts[0], s, j) && Follows(ts[1..], s[j..]) {
      var j :| 0 <= j <= |s| && Takes(ts[0], s, j) && Follows(ts[1..], s[j..]);
      SegmentKeeps(p, n, s, j);
    }
  }

  lemma FollowGap(p: bytes, n: nat, s: bytes, ts: seq<Token>)
    requires n <= |p| && ts != [] && ts[0] == Gap && ts[1..] == Tokens(p, n)
    requires forall j | 0 <= j <= |s| :: Walk(p, n, s[j..]) != NO_MATCH <==> Follows(ts[1..], s[j..])
    ensures FurthestAtSlash(p, n, s) != NO_MATCH <==>
            exists j | 0 <= j <= |s| :: Takes(ts[0], s, j) && Follows(ts[1..], s[j..])
  {
    hide Walk, FurthestAtSlash, Follows, Tokens;
    if FurthestAtSlash(p, n, s) != NO_MATCH {
      var k := SlashFinds(p, n, s);
      assert Takes(ts[0], s, k);
    }
    if exists j | 0 <= j <= |s| :: Takes(ts[0], s, j) && Follows(ts[1..], s[j..]) {
      var j :| 0 <= j <= |s| && Takes(ts[0], s, j) && Follows(ts[1..], s[j..]);
      SlashKeeps(p, n, s, j);
    }
  }

  lemma FollowOneOf(p: bytes, i: nat, n: nat, s: bytes, ts: seq<Token>)
    requires i < |p| && ts != [] && ts[0].OneOf? && Lex(p, i) == (ts[0], n) && ts[1..] == Tokens(p, n)
    requires forall j | 0 <= j <= |s| :: Walk(p, n, s[j..]) != NO_MATCH <==> Follows(ts[1..], s[j..])
    ensures Walk(p, i, s) != NO_MATCH <==>
            Stops(ts[0], s) || exists j | 0 <= j <= |s| :: Takes(ts[0], s, j) && Follows(ts[1..], s[j..])
  {
    WalkBrace(p, i, ts[0].alts, n, s);
    hide Walk, Follows, Tokens, Lex;
    match Choice(ts[0].alts, s)
    case None =>
    case Some(a) =>
      assert s[..|a|] == a;
      assert Takes(ts[0], s, |a|);
  }

  lemma FollowOne(p: bytes, i: nat, n: nat, s: bytes, ts: seq<Token>)
    requires i < |p| && ts != [] && Lex(p, i) == (ts[0], n) && ts[1..] == Tokens(p, n)
    requires !ts[0].OneOf? && !ts[0].Star? && !ts[0].Gap?
    requires forall j | 0 <= j <= |s| :: Walk(p, n, s[j..]) != NO_MATCH <==> Follows(ts[1..], s[j..])
    ensures Walk(p, i, s) != NO_MATCH <==>
            Stops(ts[0], s) || exists j | 0 <= j <= |s| :: Takes(ts[0], s, j) && Follows(ts[1..], s[j..])
  {
    hide Follows, Tokens, Lex;
    if s != [] {
      assert s[..1] == [s[0]];
      assert Walk(p, n, s[1..]) != NO_MATCH <==> Follows(ts[1..], s[1..]);
      assert Takes(ts[0], s, 1) <==> Consumes(ts[0], s[..1]);
    }
  }

  /**
   A partial match, for every pattern: the path is used up by the tokens, or the tokens lead up to one
   where the matcher stops, be it because the path has ended or because it does not fit a bracket or a
   brace list.
   */
  lemma PartialMatchFollows(pattern: bytes, path: bytes)
    ensures PartialMatch(pattern, path) <==> Follows(Tokens(CStr(pattern), 0), CStr(path))
  {
    WalkFollows(CStr(pattern), 0, CStr(path));
  }
}
