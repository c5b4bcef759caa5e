/**
 The documented meaning of a partial match: some beginning of the pattern matches the path. For which
 patterns the matcher keeps to it.
 */
module BeginningLaws {
  import opened Bytes
  import opened PatternSpec
  import opened PatternLaws
  import opened ParentPath
  import opened PartialLaws

  /** Some beginning of the pattern's text, a pattern in its own right, fully matches the path. */
  predicate Beginning(pattern: bytes, path: bytes) {
    exists k | 0 <= k <= |CStr(pattern)| :: FullMatch(CStr(pattern)[..k], path)
  }

  /** For every path a partial match is what the documentation says. */
  ghost predicate Documented(pattern: bytes) {
    forall path: bytes :: PartialMatch(pattern, path) <==> Beginning(pattern, path)
  }

  /**
   A token that cannot turn a path away in the middle: among brackets, a class of all characters; among
   brace lists, one with an empty alternative.
   */
  ghost predicate Roomy(t: Token) {
    match t
    case Class(negated, ranges) => forall c: byte | c != NUL :: InRanges(c, ranges) != negated
    case OneOf(alts) => [] in alts
    case OpenBracket => false
    case OpenBrace => false
    case _ => true
  }

  ghost predicate AllRoomy(ts: seq<Token>) {
    forall t | t in ts :: Roomy(t)
  }

  // ----- how a pattern reads when it is cut off

  lemma {:induction false} RunEndCut(p: bytes, k: nat, i: nat, c: byte)
    requires i <= k <= |p|
    ensures RunEnd(p[..k], i, c) == if RunEnd(p, i, c) <= k then RunEnd(p, i, c) else k
    decreases k - i
  {
    if i < k && p[i] == c {
      RunEndCut(p, k, i + 1, c);
    }
  }

  lemma FindCut(p: bytes, k: nat, i: nat, c: byte)
    requires i <= k <= |p|
    ensures Find(p[..k], i, c) == if Find(p, i, c) <= k then Find(p, i, c) else k
  {
    FindAt(p[..k], i, c, if Find(p, i, c) <= k then Find(p, i, c) else k);
  }

  /** A bracket that is closed before the cut reads the same, and none is closed by the cut. */
  lemma {:induction false} ReadRangesCut(p: bytes, k: nat, from: nat)
    requires from <= k <= |p|
    ensures ReadRanges(p[..k], from).1 < k || ReadRanges(p, from).1 < k ==>
              ReadRanges(p[..k], from) == ReadRanges(p, from)
    decreases k - from
  {
    if from < k && p[from] != RBRACKET {
      if from + 2 < |p| && p[from + 1] == DASH {
        if from + 2 < k {
          ReadRangesCut(p, k, from + 3);
        } else if from + 1 < k {
          assert ReadRanges(p[..k], from + 1).1 == k;
        }
      } else {
        ReadRangesCut(p, k, from + 1);
      }
    }
  }

  /**
   What a cut at `k` leaves of a token: all of it, an open bracket or brace, or fewer stars or slashes of
   a run.
   */
  predicate Cut(kept: (Token, nat), whole: (Token, nat), k: nat) {
    || kept == whole
    || (kept.0.OpenBracket? && (whole.0.OpenBracket? || whole.0.Class?) && whole.1 > k)
    || (kept.0.OpenBrace? && (whole.0.OpenBrace? || whole.0.OneOf?) && whole.1 > k)
    || (kept.0.Star? && whole.0.Star? && kept.1 == k < whole.1)
    || (kept.0.Gap? && whole.0.Gap? && kept.1 + 1 == k <= whole.1)
    || (kept.0 == Lit(SLASH) && whole.0.Gap? && kept.1 == k <= whole.1)
  }

  lemma BracketCut(p: bytes, i: nat, k: nat)
    requires i < k <= |p| && p[i] == LBRACKET
    ensures Cut(Lex(p[..k], i), Lex(p, i), k)
  {
    hide Lex, ReadRanges;
    var q, start := p[..k], if Negated(p, i) then i + 2 else i + 1;
    LexBracket(p, i);
    LexBracket(q, i);
    if k == i + 1 {
      ReadRangesCut(p, k, k);
      EmptyRanges(q);
      if k == |p| {
        assert q == p;
      }
    } else {
      ReadRangesCut(p, k, start);
      if k == |p| {
        assert q == p;
      }
    }
  }

  lemma EmptyRanges(q: bytes)
    ensures ReadRanges(q, |q|).1 == |q|
  {
  }

  lemma BraceCut(p: bytes, i: nat, k: nat)
    requires i < k <= |p| && p[i] == LBRACE
    ensures Cut(Lex(p[..k], i), Lex(p, i), k)
  {
    hide Lex, Split;
    LexBrace(p, i);
    LexBrace(p[..k], i);
    FindCut(p, k, i, RBRACE);
    var e := Find(p, i, RBRACE);
    assert e < k ==> p[..k][i + 1..e] == p[i + 1..e];
    if k == |p| {
      assert p[..k] == p;
    }
  }

  lemma SlashesCut(p: bytes, i: nat, k: nat)
    requires i < k <= |p| && DoubleSlash(p, i)
    ensures Cut(Lex(p[..k], i), Lex(p, i), k)
  {
    hide Lex, RunEnd;
    LexSlashes(p, i);
    RunEndCut(p, k, i + 1, SLASH);
    if k == i + 1 {
      LexSimple(p[..k], i);
    } else {
      LexSlashes(p[..k], i);
    }
  }

  lemma LexCut(p: bytes, i: nat, k: nat)
    requires i < k <= |p|
    ensures Cut(Lex(p[..k], i), Lex(p, i), k)
  {
    hide Lex, RunEnd;
    if p[i] == LBRACKET {
      BracketCut(p, i, k);
    } else if p[i] == LBRACE {
      BraceCut(p, i, k);
    } else if p[i] == STAR {
      LexStar(p, i);
      LexStar(p[..k], i);
      RunEndCut(p, k, i + 1, STAR);
    } else if DoubleSlash(p, i) {
      SlashesCut(p, i, k);
    } else {
      LexSimple(p, i);
      LexSimple(p[..k], i);
    }
  }

  /** A token that ends before the cut is kept. A gap needs the slash that ends it. */
  lemma LexKept(p: bytes, i: nat, k: nat)
    requires i < |p| && Lex(p, i).1 <= k <= |p|
    requires Lex(p, i).0.Gap? ==> Lex(p, i).1 < k
    ensures i < k && Lex(p[..k], i) == Lex(p, i)
  {
    LexCut(p, i, k);
    hide Lex;
  }

  // ----- one token at a time

  /** From `i` on, the pattern up to some cut matches the path. */
  ghost predicate BeginsFrom(p: bytes, i: nat, s: bytes)
    requires i <= |p|
  {
    exists k | i <= k <= |p| :: Derives(true, Tokens(p[..k], i), s)
  }

  lemma BeginsIntro(p: bytes, i: nat, s: bytes, k: nat)
    requires i <= k <= |p| && Derives(true, Tokens(p[..k], i), s)
    ensures BeginsFrom(p, i, s)
  {
  }

  lemma BeginsElim(p: bytes, i: nat, s: bytes) returns (k: nat)
    requires i <= |p| && BeginsFrom(p, i, s)
    ensures i <= k <= |p| && Derives(true, Tokens(p[..k], i), s)
  {
    k :| i <= k <= |p| && Derives(true, Tokens(p[..k], i), s);
  }

  lemma BeginsNothing(p: bytes, i: nat)
    requires i <= |p|
    ensures BeginsFrom(p, i, [])
  {
    hide *;
    TokensEnd(p[..i]);
    DerivesNothing([]);
    BeginsIntro(p, i, [], i);
  }

  /** A token before a beginning makes a longer one. */
  lemma BeginsLift(p: bytes, i: nat, s: bytes, j: nat)
    requires i < |p| && j <= |s| && Consumes(Lex(p, i).0, s[..j]) && BeginsFrom(p, Lex(p, i).1, s[j..])
    requires Lex(p, i).0.OneOf? ==> Choice(Lex(p, i).0.alts, s) == Some(s[..j])
    requires Lex(p, i).0.Gap? ==> s[j..] != []
    ensures BeginsFrom(p, i, s)
  {
    hide *;
    var (t, n) := Lex(p, i);
    var k := BeginsElim(p, n, s[j..]);
    if t.Gap? && k == n {
      TokensEnd(p[..n]);
      DerivesNothing(s[j..]);
    }
    LexKept(p, i, k);
    TokensAt(p[..k], i);
    DerivesFirst(t, Tokens(p[..k], n), s, j);
    BeginsIntro(p, i, s, k);
  }

  lemma RoomyRest(p: bytes, i: nat)
    requires i < |p| && AllRoomy(Tokens(p, i))
    ensures Roomy(Lex(p, i).0) && AllRoomy(Tokens(p, Lex(p, i).1))
  {
    TokensAt(p, i);
    hide Tokens, Lex, Roomy;
    var (t, n) := Lex(p, i);
    assert t in Tokens(p, i);
  }

  lemma RoomyTakes(t: Token, s: bytes)
    requires Roomy(t) && s != [] && NUL !in s
    ensures t.Class? ==> Consumes(t, s[..1])
    ensures t.OneOf? ==> [] in t.alts
    ensures !t.OpenBracket? && !t.OpenBrace?
  {
    hide InRanges;
  }

  /** What a roomy pattern partially matches is matched by one of its beginnings. */
  lemma {:induction false} BeginningFound(p: bytes, i: nat, s: bytes)
    requires i <= |p| && AllRoomy(Tokens(p, i)) && NUL !in s && Walk(p, i, s) != NO_MATCH
    ensures BeginsFrom(p, i, s)
    decreases |p| - i
  {
    hide *;
    if i == |p| {
      WalkEnd(p, s);
    }
    if s == [] {
      BeginsNothing(p, i);
    } else {
      RoomyRest(p, i);
      WalkAt(p, i, s);
      var (t, n) := Lex(p, i);
      RoomyTakes(t, s);
      var j := 1;
      match t {
        case Star =>
          j := SegmentFinds(p, n, s);
        case Gap =>
          j := SlashFinds(p, n, s);
        case OneOf(alts) =>
          ChoiceIs(alts, s);
          j := |Choice(alts, s).value|;
          assert s[..j] == Choice(alts, s).value;
        case _ =>
      }
      AnyStretch(t, s[..j]);
      BeginningFound(p, n, s[j..]);
      BeginsLift(p, i, s, j);
    }
  }

  lemma NoOpenBraceRest(p: bytes, i: nat)
    requires i < |p| && OpenBrace !in Tokens(p, i)
    ensures !Lex(p, i).0.OpenBrace? && OpenBrace !in Tokens(p, Lex(p, i).1)
  {
    hide Tokens, Lex;
    TokensAt(p, i);
    assert OpenBrace in [OpenBrace] + Tokens(p, Lex(p, i).1);
  }

  /** The single slash that a cut left of a gap finds its place in the gap. */
  lemma SlashInGap(p: bytes, n: nat, s: bytes, j: nat)
    requires n < |p| && Lex(p, n) == (Lit(SLASH), n + 1) && OpenBrace !in Tokens(p, n)
    requires j <= |s| && s[j..] == [SLASH]
    ensures FurthestAtSlash(p, n, s) != NO_MATCH
  {
    hide *;
    NoOpenBraceRest(p, n);
    EmptyPathMatches(p, n + 1);
    WalkAt(p, n, s[j..]);
    assert s[j..][..1] == [SLASH] && s[j..][1..] == [];
    LitConsumes(SLASH);
    SlashKeeps(p, n, s, j);
  }

  lemma LitConsumes(c: byte)
    ensures Consumes(Lit(c), [c])
  {
  }

  lemma Unopened(p: bytes, i: nat, k: nat, j: nat, s: bytes)
    requires i < k <= |p| && j <= |s| && Consumes(Lex(p[..k], i).0, s[..j])
    ensures !Lex(p[..k], i).0.OpenBracket? && !Lex(p[..k], i).0.OpenBrace?
  {
    hide Lex;
  }

  lemma CutMeans(kept: (Token, nat), whole: (Token, nat), k: nat)
    requires Cut(kept, whole, k) && !kept.0.OpenBracket? && !kept.0.OpenBrace? && kept != whole
    ensures (kept.0.Star? && whole.0.Star? && kept.1 == k)
            || (kept.0.Gap? && whole.0.Gap? && kept.1 + 1 == k)
            || (kept.0 == Lit(SLASH) && whole.0.Gap? && kept.1 == k)
  {
  }

  /** What a beginning of a pattern matches, the whole pattern partially matches, unless a brace is left open. */
  lemma {:induction false} BeginningKept(p: bytes, i: nat, k: nat, s: bytes)
    requires i <= k <= |p| && OpenBrace !in Tokens(p, i) && Derives(true, Tokens(p[..k], i), s)
    ensures Walk(p, i, s) != NO_MATCH
    decreases k - i
  {
    hide *;
    var q := p[..k];
    if i == k {
      TokensEnd(q);
      DerivesNothing(s);
    }
    if s == [] {
      EmptyPathMatches(p, i);
    } else {
      var (t, n) := Lex(q, i);
      TokensAt(q, i);
      var j := DerivesRest(t, Tokens(q, n), s);
      Unopened(p, i, k, j, s);
      LexCut(p, i, k);
      NoOpenBraceRest(p, i);
      WalkAt(p, i, s);
      if (t, n) == Lex(p, i) {
        BeginningKept(p, n, k, s[j..]);
        KeptStep(p, i, s, j, q);
      } else {
        CutMeans((t, n), Lex(p, i), k);
        KeptCut(p, i, k, s, j);
      }
    }
  }

  lemma KeptStep(p: bytes, i: nat, s: bytes, j: nat, q: bytes)
    requires i < |p| && i < |q| && j <= |s| && s != [] && Lex(q, i) == Lex(p, i)
    requires var (t, n) := Lex(p, i);
             && Consumes(t, s[..j]) && Derives(true, Tokens(q, n), s[j..]) && Walk(p, n, s[j..]) != NO_MATCH
             && !t.OpenBrace? && !t.OpenBracket? && (t.OneOf? ==> Choice(t.alts, s) == Some(s[..j]))
    ensures Walk(p, i, s) != NO_MATCH
  {
    hide *;
    var (t, n) := Lex(p, i);
    WalkAt(p, i, s);
    AnyStretch(t, s[..j]);
    if t.Star? {
      SegmentKeeps(p, n, s, j);
    } else if t.Gap? {
      GapEnd(q, i);
      LiteralFirst(q, n, s[j..]);
      assert s[j..][0] == s[j];
      SlashKeeps(p, n, s, j);
    } else if !t.OneOf? {
      OneByte(t, s[..j]);
    }
  }

  lemma KeptCut(p: bytes, i: nat, k: nat, s: bytes, j: nat)
    requires i < k <= |p| && j <= |s| && s != [] && OpenBrace !in Tokens(p, i)
    requires var (t, n) := Lex(p[..k], i);
             var t' := Lex(p, i).0;
             && Consumes(t, s[..j]) && Derives(true, Tokens(p[..k], n), s[j..])
             && ((t.Star? && t'.Star? && n == k)
                 || (t.Gap? && t'.Gap? && n + 1 == k)
                 || (t == Lit(SLASH) && t'.Gap? && n == k))
    ensures Walk(p, i, s) != NO_MATCH
  {
    hide *;
    var q := p[..k];
    var (t, n) := Lex(q, i);
    var (t', n') := Lex(p, i);
    WalkAt(p, i, s);
    NoOpenBraceRest(p, i);
    AnyStretch(t, s[..j]);
    TokensEnd(q);
    DerivesNothing(s[j..]);
    if t.Star? {
      EmptyPathMatches(p, n');
      SegmentKeeps(p, n', s, j);
    } else {
      GapEnd(p, i);
      if t.Gap? {
        GapEnd(q, i);
        LastSlashOfCut(q, n, s[j..]);
        SlashInGap(p, n', s, j);
      } else {
        OneByte(t, s[..j]);
        SplitOnce(s, j);
        SlashInGap(p, n', s, 0);
      }
    }
  }

  lemma LastSlashOfCut(q: bytes, n: nat, s: bytes)
    requires n + 1 == |q| && q[n] == SLASH && !DoubleSlash(q, n) && Derives(true, Tokens(q, n), s)
    ensures s == [SLASH]
  {
    hide *;
    LiteralFirst(q, n, s);
    TokensEnd(q);
    DerivesNothing(s[1..]);
  }

  lemma SplitOnce(s: bytes, j: nat)
    requires j <= |s|
    ensures s[0..] == s && s == s[..j] + s[j..]
  {
  }

  // ----- whole patterns

  lemma BeginningIs(pattern: bytes, path: bytes)
    ensures Beginning(pattern, path) <==> BeginsFrom(CStr(pattern), 0, CStr(path))
  {
    var p := CStr(pattern);
    forall k | 0 <= k <= |p| ensures FullMatch(p[..k], path) <==> Derives(true, Tokens(p[..k], 0), CStr(path)) {
      assert CStr(p[..k]) == p[..k];
      FullMatchCommits(p[..k], path);
    }
  }

  lemma PartialIs(pattern: bytes, path: bytes)
    ensures PartialMatch(pattern, path) <==> Walk(CStr(pattern), 0, CStr(path)) != NO_MATCH
    ensures NUL !in CStr(path)
  {
    hide Walk;
  }

  lemma RoomyIsClosed(ts: seq<Token>)
    requires AllRoomy(ts)
    ensures OpenBrace !in ts
  {
  }

  /** For every pattern without an unclosed brace, what its beginning matches is a partial match. */
  lemma BeginningIsPartial(pattern: bytes, path: bytes)
    requires OpenBrace !in Tokens(CStr(pattern), 0) && Beginning(pattern, path)
    ensures PartialMatch(pattern, path)
  {
    hide *;
    BeginningIs(pattern, path);
    PartialIs(pattern, path);
    var k := BeginsElim(CStr(pattern), 0, CStr(path));
    BeginningKept(CStr(pattern), 0, k, CStr(path));
  }

  /** A partial match is what the documentation says it is for every roomy pattern, whatever its wildcards. */
  lemma PartialMatchBegins(pattern: bytes, path: bytes)
    requires AllRoomy(Tokens(CStr(pattern), 0))
    ensures PartialMatch(pattern, path) <==> Beginning(pattern, path)
  {
    hide *;
    RoomyIsClosed(Tokens(CStr(pattern), 0));
    if PartialMatch(pattern, path) {
      BeginningIs(pattern, path);
      PartialIs(pattern, path);
      BeginningFound(CStr(pattern), 0, CStr(path));
    }
    if Beginning(pattern, path) {
      BeginningIsPartial(pattern, path);
    }
  }
}
