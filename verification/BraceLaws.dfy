/**
 Where committing to the first fitting alternative of a brace list goes wrong, and where it does not:
 exact conditions on one brace list.
 */
module BraceLaws {
  import opened Bytes
  import opened PatternSpec
  import opened PatternLaws

  /** The pattern `{list}` followed by `k` question marks. */
  function Braced(list: bytes, k: nat): (r: bytes)
    ensures |r| == |list| + k + 2
  {
    [LBRACE] + list + [RBRACE] + seq(k, _ => QUESTION)
  }

  lemma {:induction false} QuestionTail(commit: bool, p: bytes, i: nat, s: bytes)
    requires i <= |p| && forall j | i <= j < |p| :: p[j] == QUESTION
    ensures Derives(commit, Tokens(p, i), s) <==> |s| == |p| - i
    decreases |p| - i
  {
    if i < |p| {
      var ts := Tokens(p, i);
      assert ts[0] == AnyChar && ts[1..] == Tokens(p, i + 1);
      if s != [] {
        QuestionTail(commit, p, i + 1, s[1..]);
        assert Splits(commit, ts, s, 1) <==> |s[1..]| == |p| - i - 1;
      }
    }
  }

  lemma BracedTokens(list: bytes, k: nat)
    requires RBRACE !in list
    ensures Lex(Braced(list, k), 0) == (OneOf(Split(list)), |list| + 2)
    ensures Tokens(Braced(list, k), 0) == [OneOf(Split(list))] + Tokens(Braced(list, k), |list| + 2)
    ensures forall j | |list| + 2 <= j < |Braced(list, k)| :: Braced(list, k)[j] == QUESTION
  {
    hide *;
    var p := Braced(list, k);
    BracedIs(list, k);
    LexBrace(p, 0);
    FindAt(p, 0, RBRACE, |list| + 1);
    TokensAt(p, 0);
  }

  lemma BracedIs(list: bytes, k: nat)
    ensures var p := Braced(list, k);
            && p[0] == LBRACE && p[|list| + 1] == RBRACE && p[1..|list| + 1] == list && LBRACE != RBRACE
            && (forall j | |list| + 2 <= j < |p| :: p[j] == QUESTION)
            && (RBRACE !in list ==> forall j | 0 <= j < |list| + 1 :: p[j] != RBRACE)
  {
    var p := Braced(list, k);
    assert forall j | 1 <= j < |list| + 1 :: p[j] == list[j - 1];
  }

  lemma BracedDerives(commit: bool, list: bytes, k: nat, s: bytes)
    requires RBRACE !in list
    ensures Derives(commit, Tokens(Braced(list, k), 0), s) <==>
            k <= |s| && s[..|s| - k] in Split(list) && (commit ==> Choice(Split(list), s) == Some(s[..|s| - k]))
  {
    BracedTokens(list, k);
    var p := Braced(list, k);
    var ts := Tokens(p, 0);
    assert ts[0] == OneOf(Split(list)) && ts[1..] == Tokens(p, |list| + 2);
    forall m | 0 <= m <= |s|
      ensures Splits(commit, ts, s, m) <==>
              s[..m] in Split(list) && (commit ==> Choice(Split(list), s) == Some(s[..m])) && |s| - m == k
    {
      QuestionTail(commit, p, |list| + 2, s[m..]);
    }
    if k <= |s| {
      assert Splits(commit, ts, s, |s| - k) ==> Derives(commit, ts, s);
    }
  }

  lemma {:induction false} SplitStaysInside(list: bytes, a: bytes, c: byte)
    requires a in Split(list) && c in a
    ensures c in list
    decreases |list|
  {
    var k := Find(list, 0, COMMA);
    if k < |list| && a != list[..k] {
      SplitStaysInside(list[k + 1..], a, c);
    }
  }

  lemma BracedCStr(list: bytes, k: nat)
    requires NUL !in list
    ensures CStr(Braced(list, k)) == Braced(list, k)
  {
  }

  lemma PrefixFreeBraceExact(list: bytes, k: nat, path: bytes)
    requires RBRACE !in list && NUL !in list && PrefixFree(Split(list))
    ensures FullMatch(Braced(list, k), path) <==> Matches(Tokens(Braced(list, k), 0), CStr(path))
  {
    var s := CStr(path);
    BracedCStr(list, k);
    FullMatchCommits(Braced(list, k), path);
    BracedDerives(true, list, k, s);
    BracedDerives(false, list, k, s);
    if k <= |s| && s[..|s| - k] in Split(list) {
      OnlyChoice(Split(list), s, s[..|s| - k]);
    }
  }

  /**
   Exactness, list by list: `{list}` followed by any number of single-character wildcards is matched
   exactly as the relation says if and only if the list is prefix-free.
   */
  lemma BraceExactIffPrefixFree(list: bytes)
    requires RBRACE !in list && NUL !in list
    ensures PrefixFree(Split(list)) <==>
            forall k: nat, path: bytes ::
              FullMatch(Braced(list, k), path) <==> Matches(Tokens(Braced(list, k), 0), CStr(path))
  {
    if PrefixFree(Split(list)) {
      forall k: nat, path: bytes
        ensures FullMatch(Braced(list, k), path) <==> Matches(Tokens(Braced(list, k), 0), CStr(path))
      {
        PrefixFreeBraceExact(list, k, path);
      }
    } else {
      var a, b :| a in Split(list) && b in Split(list) && a <= b && a != b;
      var k := OverlapFails(list, a, b);
    }
  }

  /** Two overlapping alternatives give a path that the relation accepts and the matcher does not. */
  lemma OverlapFails(list: bytes, a: bytes, b: bytes) returns (k: nat)
    requires RBRACE !in list && NUL !in list
    requires a in Split(list) && b in Split(list) && a <= b && a != b
    ensures Matches(Tokens(Braced(list, k), 0), CStr(b)) && !FullMatch(Braced(list, k), b)
  {
    hide *;
    forall c | c in b ensures c in list {
      SplitStaysInside(list, b, c);
    }
    CStrSame(b);
    k := if Choice(Split(list), b) == Some(b) then |b| - |a| else 0;
    assert b[..|a|] == a && b[..|b|] == b;
    BracedCStr(list, k);
    FullMatchCommits(Braced(list, k), b);
    BracedDerives(true, list, k, b);
    BracedDerives(false, list, k, b);
    MatchesIs(Tokens(Braced(list, k), 0), b);
  }

  lemma MatchesIs(ts: seq<Token>, s: bytes)
    ensures Matches(ts, s) <==> Derives(false, ts, s)
  {
  }

  // ----- what a brace list does to the directories of a path

  /** The start of a path that is empty or ends in a slash. */
  predicate IsParent(pre: bytes, path: bytes) {
    pre <= path && (pre == [] || pre[|pre| - 1] == SLASH)
  }

  /**
   Whenever the list would pick the whole of one of its alternatives, for each directory that this
   alternative runs through it picks that very directory or nothing.
   */
  predicate Settled(alts: seq<bytes>) {
    forall f | f in alts && Choice(alts, f) == Some(f) ::
      forall n | 0 < n < |f| && f[n - 1] == SLASH ::
        Choice(alts, f[..n]) == None || Choice(alts, f[..n]) == Some(f[..n])
  }

  lemma SlashFreeSettled(alts: seq<bytes>)
    requires forall a | a in alts :: SLASH !in a
    ensures Settled(alts)
  {
  }

  lemma PrefixFreeSettled(alts: seq<bytes>)
    requires PrefixFree(alts)
    ensures Settled(alts)
  {
    forall f: bytes, n: nat | f in alts && 0 < n < |f| ensures Choice(alts, f[..n]) == None {
      forall c | c in alts ensures !(c <= f[..n]) {
        assert c <= f ==> c == f;
      }
    }
  }

  lemma WalkBrace(p: bytes, i: nat, alts: seq<bytes>, n: nat, s: bytes)
    requires i < |p| && Lex(p, i) == (OneOf(alts), n)
    ensures Walk(p, i, s) ==
            match Choice(alts, s)
            case None => i
            case Some(a) => Walk(p, n, s[|a|..])
  {
  }

  lemma BracedWalk(list: bytes, s: bytes)
    requires RBRACE !in list
    ensures Walk(Braced(list, 0), 0, s) ==
            match Choice(Split(list), s)
            case None => 0
            case Some(a) => if a == s then |list| + 2 else NO_MATCH
  {
    BracedTokens(list, 0);
    WalkBrace(Braced(list, 0), 0, Split(list), |list| + 2, s);
    match Choice(Split(list), s)
    case None =>
    case Some(a) => assert a == s[..|a|] && (a == s <==> s[|a|..] == []);
  }

  lemma SettledPick(alts: seq<bytes>, f: bytes, pre: bytes)
    requires Settled(alts) && f in alts && Choice(alts, f) == Some(f) && IsParent(pre, f)
    ensures Choice(alts, pre) == None || Choice(alts, pre) == Some(pre)
  {
    var n := |pre|;
    assert pre == f[..n];
    if n == |f| {
      assert pre == f;
    } else if n > 0 {
      assert f[n - 1] == SLASH;
      assert Choice(alts, f[..n]) == None || Choice(alts, f[..n]) == Some(f[..n]);
    }
  }

  lemma SettledBraceKeepsParents(list: bytes, path: bytes, pre: bytes)
    requires RBRACE !in list && NUL !in list && Settled(Split(list))
    requires FullMatch(Braced(list, 0), path) && IsParent(pre, CStr(path))
    ensures PartialMatch(Braced(list, 0), pre)
  {
    var f := CStr(path);
    BracedCStr(list, 0);
    BracedWalk(list, f);
    SettledPick(Split(list), f, pre);
    assert CStr(pre) == pre;
    BracedWalk(list, pre);
  }

  /** A list that is not settled breaks the parent-path law. */
  lemma UnsettledBraceFails(list: bytes, f: bytes, n: nat)
    requires RBRACE !in list && NUL !in list
    requires f in Split(list) && Choice(Split(list), f) == Some(f) && 0 < n < |f| && f[n - 1] == SLASH
    requires Choice(Split(list), f[..n]) != None && Choice(Split(list), f[..n]) != Some(f[..n])
    ensures FullMatch(Braced(list, 0), f) && IsParent(f[..n], CStr(f)) && !PartialMatch(Braced(list, 0), f[..n])
  {
    hide *;
    BracedCStr(list, 0);
    forall c | c in f ensures c in list {
      SplitStaysInside(list, f, c);
    }
    CStrSame(f);
    CStrSame(f[..n]);
    BracedWalk(list, f);
    BracedWalk(list, f[..n]);
    BracedMatches(Braced(list, 0), f, f[..n]);
    assert f[..n][n - 1] == f[n - 1];
    ParentIs(f[..n], f);
    ChoiceIs(Split(list), f[..n]);
  }

  lemma BracedMatches(pattern: bytes, path: bytes, pre: bytes)
    requires CStr(pattern) == pattern && CStr(path) == path && CStr(pre) == pre
    ensures FullMatch(pattern, path) <==> Walk(pattern, 0, path) == |pattern|
    ensures PartialMatch(pattern, pre) <==> Walk(pattern, 0, pre) != NO_MATCH
  {
    hide Walk, CStr;
  }

  lemma ParentIs(pre: bytes, path: bytes)
    ensures IsParent(pre, path) <==> pre <= path && (pre == [] || pre[|pre| - 1] == SLASH)
  {
  }

  /** There are such lists: `{a/b,a}` matches `a/b` fully, but its parent `a/` not even partially. */
  lemma UnsettledListExists()
    ensures var list: bytes, f: bytes := [97, SLASH, 98, COMMA, 97], [97, SLASH, 98];
            && FullMatch(Braced(list, 0), f) && IsParent([97, SLASH], CStr(f))
            && !PartialMatch(Braced(list, 0), [97, SLASH])
  {
    var list: bytes, f: bytes := [97, SLASH, 98, COMMA, 97], [97, SLASH, 98];
    FindAt(list, 0, COMMA, 3);
    assert list[..3] == f && list[4..] == [97];
    FindAt([97], 0, COMMA, 1);
    assert Split([97]) == [[97]] && Split(list) == [f] + [[97]];
    var alts := Split(list);
    assert alts[0] == f && alts[1..] == [[97]];
    assert Choice(alts, f) == Some(f);
    assert f[..2] == [97, SLASH] && !(f <= f[..2]) && [97] <= f[..2];
    assert Choice([[97]], f[..2]) == Some([97]);
    assert Choice(alts, f[..2]) == Some([97]);
    assert |f[..2]| == 2;
    UnsettledBraceFails(list, f, 2);
  }

  /**
   The parent-path law, list by list: if `{list}` matches a path fully then it matches every parent of
   the path partially, for all paths, if and only if the list is settled.
   */
  lemma BraceParentLawIffSettled(list: bytes)
    requires RBRACE !in list && NUL !in list
    ensures Settled(Split(list)) <==>
            forall path: bytes, pre: bytes ::
              FullMatch(Braced(list, 0), path) && IsParent(pre, CStr(path)) ==> PartialMatch(Braced(list, 0), pre)
  {
    if Settled(Split(list)) {
      forall path: bytes, pre: bytes | FullMatch(Braced(list, 0), path) && IsParent(pre, CStr(path))
        ensures PartialMatch(Braced(list, 0), pre)
      {
        SettledBraceKeepsParents(list, path, pre);
      }
    } else {
      var alts := Split(list);
      var f, n :| f in alts && Choice(alts, f) == Some(f) && 0 < n < |f| && f[n - 1] == SLASH
                  && Choice(alts, f[..n]) != None && Choice(alts, f[..n]) != Some(f[..n]);
      UnsettledBraceFails(list, f, n);
    }
  }
}
