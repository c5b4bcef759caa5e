/**
 The parent-path law: a pattern that matches a path also matches, partially, every directory on the way.
 */
module ParentPath {
  import opened Bytes
  import opened PatternSpec
  import opened PatternLaws
  import opened BraceLaws

  predicate SettledLists(ts: seq<Token>) {
    forall t | t in ts && t.OneOf? :: Settled(t.alts)
  }

  lemma {:induction false} DerivedHasNoOpenBrace(ts: seq<Token>, s: bytes)
    requires Derives(true, ts, s)
    ensures OpenBrace !in ts
    decreases |ts|
  {
    if ts != [] {
      var k :| 0 <= k <= |s| && Splits(true, ts, s, k);
      DerivedHasNoOpenBrace(ts[1..], s[k..]);
      assert ts == [ts[0]] + ts[1..];
    }
  }

  /** The empty path matches the beginning of every pattern without an unclosed brace. */
  lemma {:induction false} EmptyPathMatches(p: bytes, i: nat)
    requires i <= |p| && OpenBrace !in Tokens(p, i)
    ensures Walk(p, i, []) != NO_MATCH
    decreases |p| - i
  {
    if i < |p| {
      var (t, n) := Lex(p, i);
      assert Tokens(p, i) == [t] + Tokens(p, n);
      EmptyPathMatches(p, n);
      if t.OneOf? {
        match Choice(t.alts, [])
        case None =>
        case Some(a) => var e: bytes := []; assert e[|a|..] == [];
      }
    }
  }

  lemma {:induction false} SegmentKeeps(p: bytes, n: nat, s: bytes, k: nat)
    requires n <= |p| && k <= |s| && SLASH !in s[..k]
    requires Walk(p, n, s[k..]) != NO_MATCH
    ensures FurthestInSegment(p, n, s) != NO_MATCH
    decreases k
  {
    if k == 0 {
      assert s[0..] == s;
    } else {
      assert s[..k][0] == s[0] && s[1..][..k - 1] == s[..k][1..] && s[1..][k - 1..] == s[k..];
      SegmentKeeps(p, n, s[1..], k - 1);
    }
  }

  lemma {:induction false} SlashKeeps(p: bytes, n: nat, s: bytes, k: nat)
    requires n <= |p| && k <= |s| && (k == 0 || (k < |s| && s[k] == SLASH))
    requires Walk(p, n, s[k..]) != NO_MATCH
    ensures FurthestAtSlash(p, n, s) != NO_MATCH
    decreases k
  {
    if k == 0 {
      assert s[0..] == s;
    } else {
      var e := Find(s, 1, SLASH);
      assert s[e..][k - e..] == s[k..];
      SlashKeeps(p, n, s[e..], k - e);
    }
  }

  lemma {:induction false} ChoiceStable(alts: seq<bytes>, s: bytes, f: bytes, pre: bytes)
    requires Choice(alts, s) == Some(f) && pre <= s && |f| <= |pre|
    ensures Choice(alts, pre) == Some(f)
  {
    assert alts != [];
    if alts[0] <= s {
      assert alts[0] == pre[..|f|];
    } else {
      assert !(alts[0] <= pre);
      ChoiceStable(alts[1..], s, f, pre);
    }
  }

  lemma ParentTail(pre: bytes, s: bytes, k: nat)
    requires IsParent(pre, s) && k <= |pre|
    ensures k <= |s| && IsParent(pre[k..], s[k..])
  {
    assert s[..|pre|] == pre;
    assert s[k..][..|pre| - k] == pre[k..];
  }

  /** The law from any position of the pattern and of the path. */
  lemma {:induction false} ParentWalk(p: bytes, i: nat, s: bytes, pre: bytes)
    requires i <= |p| && Derives(true, Tokens(p, i), s) && SettledLists(Tokens(p, i))
    requires IsParent(pre, s)
    ensures Walk(p, i, pre) != NO_MATCH
    decreases |p| - i, 0
  {
    var ts := Tokens(p, i);
    DerivedHasNoOpenBrace(ts, s);
    if pre == [] {
      EmptyPathMatches(p, i);
    } else if i < |p| {
      var (t, n) := Lex(p, i);
      assert ts[0] == t && ts[1..] == Tokens(p, n);
      var k :| 0 <= k <= |s| && Splits(true, ts, s, k);
      if t.Star? {
        ParentStar(p, n, s, pre, k);
      } else if t.Gap? {
        ParentGap(p, n, s, pre, k);
      } else if t.OneOf? {
        ParentOneOf(p, i, t.alts, n, s, pre, k);
      } else {
        assert k == 1 && pre[..1] == s[..1];
        ParentTail(pre, s, 1);
        ParentWalk(p, n, s[1..], pre[1..]);
      }
    }
  }

  lemma {:induction false} ParentStar(p: bytes, n: nat, s: bytes, pre: bytes, k: nat)
    requires n <= |p| && k <= |s| && Derives(true, Tokens(p, n), s[k..]) && SettledLists(Tokens(p, n))
    requires IsParent(pre, s) && pre != [] && SLASH !in s[..k]
    ensures FurthestInSegment(p, n, pre) != NO_MATCH
    decreases |p| - n, 1
  {
    forall j | 0 <= j < k ensures s[j] != SLASH {
      assert s[..k][j] == s[j];
    }
    assert s[|pre| - 1] == SLASH;
    ParentTail(pre, s, k);
    ParentWalk(p, n, s[k..], pre[k..]);
    assert pre[..k] == s[..k];
    SegmentKeeps(p, n, pre, k);
  }

  lemma {:induction false} ParentGap(p: bytes, n: nat, s: bytes, pre: bytes, k: nat)
    requires n < |p| && p[n] == SLASH && !DoubleSlash(p, n)
    requires k <= |s| && Derives(true, Tokens(p, n), s[k..]) && SettledLists(Tokens(p, n))
    requires IsParent(pre, s) && pre != []
    ensures FurthestAtSlash(p, n, pre) != NO_MATCH
    decreases |p| - n, 1
  {
    LiteralFirst(p, n, s[k..]);
    if k < |pre| {
      ParentTail(pre, s, k);
      ParentWalk(p, n, s[k..], pre[k..]);
      assert pre[k] == s[k];
      SlashKeeps(p, n, pre, k);
    } else {
      // the last slash of the parent itself stands for the one that ends the gap
      DerivedHasNoOpenBrace(Tokens(p, n + 1), s[k..][1..]);
      EmptyPathMatches(p, n + 1);
      var last := pre[|pre| - 1..];
      assert last == [SLASH] && last[1..] == [] && last[..1] == [SLASH];
      assert Walk(p, n, last) == Walk(p, n + 1, []);
      SlashKeeps(p, n, pre, |pre| - 1);
    }
  }

  lemma {:induction false} ParentOneOf(p: bytes, i: nat, alts: seq<bytes>, n: nat, s: bytes, pre: bytes, k: nat)
    requires i < |p| && Lex(p, i) == (OneOf(alts), n)
    requires k <= |s| && Derives(true, Tokens(p, n), s[k..]) && SettledLists(Tokens(p, n)) && Settled(alts)
    requires Choice(alts, s) == Some(s[..k])
    requires IsParent(pre, s)
    ensures Walk(p, i, pre) != NO_MATCH
    decreases |p| - n, 1
  {
    var f := s[..k];
    WalkBrace(p, i, alts, n, pre);
    if k <= |pre| {
      ChoiceStable(alts, s, f, pre);
      ParentTail(pre, s, k);
      ParentWalk(p, n, s[k..], pre[k..]);
    } else {
      ParentInsideChoice(alts, s, f, pre);
      DerivedHasNoOpenBrace(Tokens(p, n), s[k..]);
      EmptyPathMatches(p, n);
    }
  }

  /** A parent that ends inside the chosen alternative is picked whole or not at all. */
  lemma ParentInsideChoice(alts: seq<bytes>, s: bytes, f: bytes, pre: bytes)
    requires Settled(alts) && Choice(alts, s) == Some(f) && IsParent(pre, s) && |pre| < |f|
    ensures Choice(alts, pre) == None || (Choice(alts, pre) == Some(pre) && pre[|pre|..] == [])
  {
    ChoiceStable(alts, s, f, f);
    assert pre == s[..|pre|] == f[..|pre|];
    SettledPick(alts, f, pre);
  }

  /**
   The parent-path law: a pattern with settled brace lists that fully matches a path partially matches
   every start of the path that is empty or ends in a slash.
   */
  lemma ParentPathLaw(pattern: bytes, path: bytes, pre: bytes)
    requires FullMatch(pattern, path)
    requires SettledLists(Tokens(CStr(pattern), 0))
    requires IsParent(pre, CStr(path))
    ensures PartialMatch(pattern, pre)
  {
    WalkIsFull(CStr(pattern), 0, CStr(path));
    assert CStr(pre) == pre;
    ParentWalk(CStr(pattern), 0, CStr(path), pre);
  }

  /** The law for the two usual kinds of brace lists: alternatives without slashes, and prefix-free lists. */
  lemma ParentPathLawPlain(pattern: bytes, path: bytes, pre: bytes)
    requires FullMatch(pattern, path)
    requires forall t | t in Tokens(CStr(pattern), 0) && t.OneOf? ::
               PrefixFree(t.alts) || forall a | a in t.alts :: SLASH !in a
    requires IsParent(pre, CStr(path))
    ensures PartialMatch(pattern, pre)
  {
    forall t | t in Tokens(CStr(pattern), 0) && t.OneOf? ensures Settled(t.alts) {
      if PrefixFree(t.alts) {
        PrefixFreeSettled(t.alts);
      } else {
        SlashFreeSettled(t.alts);
      }
    }
    ParentPathLaw(pattern, path, pre);
  }
}
