/**
 What a full match and a partial match of an address pattern mean.
 */
module PatternLaws {
  import opened Bytes
  import opened PatternSpec

  // ----- tokens and steps of the matcher, one at a time

  /** The character at `i` starts a token of several characters. */
  predicate Compound(p: bytes, i: nat)
    requires i < |p|
  {
    p[i] == LBRACKET || p[i] == STAR || DoubleSlash(p, i) || p[i] == LBRACE
  }

  lemma LexBracket(p: bytes, i: nat)
    requires i < |p| && p[i] == LBRACKET
    ensures var (ranges, e) := ReadRanges(p, if Negated(p, i) then i + 2 else i + 1);
            Lex(p, i) == if e == |p| then (OpenBracket, |p|) else (Class(Negated(p, i), ranges), e + 1)
  {
    hide ReadRanges, Negated, DoubleSlash;
  }

  lemma LexBrace(p: bytes, i: nat)
    requires i < |p| && p[i] == LBRACE
    ensures var e := Find(p, i, RBRACE);
            Lex(p, i) == if e == |p| then (OpenBrace, |p|) else (OneOf(Split(p[i + 1..e])), e + 1)
  {
    hide Find, Split;
  }

  lemma LexStar(p: bytes, i: nat)
    requires i < |p| && p[i] == STAR
    ensures Lex(p, i) == (Star, RunEnd(p, i + 1, STAR))
  {
  }

  lemma LexSlashes(p: bytes, i: nat)
    requires i < |p| && DoubleSlash(p, i)
    ensures Lex(p, i) == (Gap, RunEnd(p, i + 1, SLASH) - 1) && RunEnd(p, i + 1, SLASH) >= i + 2 && p[i] == SLASH
  {
  }

  lemma LexSimple(p: bytes, i: nat)
    requires i < |p| && !Compound(p, i)
    ensures Lex(p, i) == (if p[i] == QUESTION then AnyChar else Lit(p[i]), i + 1)
  {
  }

  lemma TokensAt(p: bytes, i: nat)
    requires i < |p|
    ensures var (t, n) := Lex(p, i); Tokens(p, i) == [t] + Tokens(p, n)
  {
    hide Lex;
  }

  lemma TokensEnd(p: bytes)
    ensures Tokens(p, |p|) == []
  {
  }

  lemma WalkAt(p: bytes, i: nat, s: bytes)
    requires i < |p|
    ensures var (t, n) := Lex(p, i);
            && (t.Star? ==> Walk(p, i, s) == FurthestInSegment(p, n, s))
            && (t.Gap? ==> Walk(p, i, s) == FurthestAtSlash(p, n, s))
            && (t.OneOf? ==>
                  var pick := Choice(t.alts, s);
                  Walk(p, i, s) == if pick.None? then i else Walk(p, n, s[|pick.value|..]))
            && (t.OpenBrace? ==> Walk(p, i, s) == NO_MATCH)
            && (t.OpenBracket? ==> Walk(p, i, s) == i)
            && (t.Lit? || t.AnyChar? || t.Class? ==>
                  Walk(p, i, s) == if s == [] then i
                                   else if Consumes(t, s[..1]) then Walk(p, n, s[1..])
                                   else if t.Class? then i
                                   else NO_MATCH)
  {
    hide Lex, FurthestInSegment, FurthestAtSlash, Consumes, Choice;
  }

  lemma WalkEnd(p: bytes, s: bytes)
    ensures Walk(p, |p|, s) == if s == [] then |p| else NO_MATCH
  {
  }

  lemma DerivesNothing(s: bytes)
    ensures Derives(true, [], s) <==> s == []
  {
  }

  lemma DerivesFirst(t: Token, ts: seq<Token>, s: bytes, j: nat)
    requires j <= |s| && Consumes(t, s[..j]) && Derives(true, ts, s[j..])
    requires t.OneOf? ==> Choice(t.alts, s) == Some(s[..j])
    ensures Derives(true, [t] + ts, s)
  {
    assert ([t] + ts)[1..] == ts;
    assert Splits(true, [t] + ts, s, j);
  }

  lemma DerivesRest(t: Token, ts: seq<Token>, s: bytes) returns (j: nat)
    requires Derives(true, [t] + ts, s)
    ensures j <= |s| && Consumes(t, s[..j]) && Derives(true, ts, s[j..])
    ensures t.OneOf? ==> Choice(t.alts, s) == Some(s[..j])
  {
    hide Consumes;
    assert ([t] + ts)[1..] == ts;
    j :| 0 <= j <= |s| && Splits(true, [t] + ts, s, j);
  }

  lemma ChoiceIs(alts: seq<bytes>, s: bytes)
    ensures Choice(alts, s).Some? ==> Choice(alts, s).value in alts && Choice(alts, s).value <= s
    ensures [] in alts ==> Choice(alts, s).Some?
  {
    assert [] <= s;
  }

  lemma AnyStretch(t: Token, w: bytes)
    ensures t == Star ==> (Consumes(t, w) <==> SLASH !in w)
    ensures t == Gap ==> Consumes(t, w)
    ensures t.OneOf? ==> (Consumes(t, w) <==> w in t.alts)
  {
  }

  lemma GapEnd(p: bytes, i: nat)
    requires i < |p| && Lex(p, i).0.Gap?
    ensures var n := Lex(p, i).1;
            n < |p| && Lex(p, n) == (Lit(SLASH), n + 1) && p[n] == SLASH && !DoubleSlash(p, n)
  {
  }

  lemma OneByte(t: Token, w: bytes)
    requires (t.Lit? || t.AnyChar? || t.Class?) && Consumes(t, w)
    ensures |w| == 1 && (t.Lit? ==> w == [t.c])
  {
  }

  // ----- a full match is a committed derivation

  lemma NoMatchIs()
    ensures NO_MATCH == -1
  {
  }

  lemma NeverConsumed(w: bytes)
    ensures !Consumes(OpenBracket, w) && !Consumes(OpenBrace, w)
  {
  }

  lemma DerivesOneOf(alts: seq<bytes>, ts: seq<Token>, s: bytes)
    ensures Derives(true, [OneOf(alts)] + ts, s) <==>
            Choice(alts, s).Some? && Derives(true, ts, s[|Choice(alts, s).value|..])
  {
    hide *;
    ChoiceIs(alts, s);
    if Derives(true, [OneOf(alts)] + ts, s) {
      var j := DerivesRest(OneOf(alts), ts, s);
    }
    if Choice(alts, s).Some? && Derives(true, ts, s[|Choice(alts, s).value|..]) {
      var a := Choice(alts, s).value;
      assert s[..|a|] == a;
      AnyStretch(OneOf(alts), a);
      DerivesFirst(OneOf(alts), ts, s, |a|);
    }
  }

  lemma DerivesByte(t: Token, ts: seq<Token>, s: bytes)
    requires t.Lit? || t.AnyChar? || t.Class?
    ensures Derives(true, [t] + ts, s) <==> s != [] && Consumes(t, s[..1]) && Derives(true, ts, s[1..])
  {
    hide *;
    if Derives(true, [t] + ts, s) {
      var j := DerivesRest(t, ts, s);
      OneByte(t, s[..j]);
    }
    if s != [] && Consumes(t, s[..1]) && Derives(true, ts, s[1..]) {
      DerivesFirst(t, ts, s, 1);
    }
  }

  lemma DerivesStretch(t: Token, ts: seq<Token>, s: bytes)
    requires t == Star || t == Gap
    ensures Derives(true, [t] + ts, s) <==>
            exists k | 0 <= k <= |s| :: (t == Star ==> SLASH !in s[..k]) && Derives(true, ts, s[k..])
  {
    hide *;
    if Derives(true, [t] + ts, s) {
      var j := DerivesRest(t, ts, s);
      AnyStretch(t, s[..j]);
    }
    forall k | 0 <= k <= |s| && (t == Star ==> SLASH !in s[..k]) && Derives(true, ts, s[k..])
      ensures Derives(true, [t] + ts, s)
    {
      AnyStretch(t, s[..k]);
      DerivesFirst(t, ts, s, k);
    }
  }

  lemma {:induction false} WalkIsFull(p: bytes, i: nat, s: bytes)
    requires i <= |p|
    ensures Walk(p, i, s) == |p| <==> Derives(true, Tokens(p, i), s)
    decreases |p| - i, |s|, 0
  {
    hide *;
    NoMatchIs();
    if i == |p| {
      WalkEnd(p, s);
      TokensEnd(p);
      DerivesNothing(s);
    } else {
      var (t, n) := Lex(p, i);
      var ts := Tokens(p, n);
      TokensAt(p, i);
      WalkAt(p, i, s);
      match t
      case Star =>
        SegmentIsFull(p, n, s);
        DerivesStretch(t, ts, s);
      case Gap =>
        GapEnd(p, i);
        SlashIsFull(p, n, s);
        DerivesStretch(t, ts, s);
      case OneOf(alts) =>
        ChoiceIs(alts, s);
        DerivesOneOf(alts, ts, s);
        if Choice(alts, s).Some? {
          WalkIsFull(p, n, s[|Choice(alts, s).value|..]);
        }
      case OpenBrace => DerivesNever(t, ts, s);
      case OpenBracket => DerivesNever(t, ts, s);
      case _ =>
        DerivesByte(t, ts, s);
        if s != [] {
          WalkIsFull(p, n, s[1..]);
        }
    }
  }

  lemma DerivesNever(t: Token, ts: seq<Token>, s: bytes)
    requires t.OpenBracket? || t.OpenBrace?
    ensures !Derives(true, [t] + ts, s)
  {
    hide *;
    if Derives(true, [t] + ts, s) {
      var j := DerivesRest(t, ts, s);
      NeverConsumed(s[..j]);
    }
  }

  lemma SegmentCases(p: bytes, n: nat, s: bytes)
    requires n <= |p|
    ensures FurthestInSegment(p, n, s) == |p| <==>
            Walk(p, n, s) == |p| || (s != [] && s[0] != SLASH && FurthestInSegment(p, n, s[1..]) == |p|)
  {
    hide Walk;
  }

  /** A stretch of one byte more. */
  lemma LongerStretch(s: bytes, k: nat)
    requires 0 < k <= |s|
    ensures s[1..][k - 1..] == s[k..]
    ensures SLASH !in s[..k] <==> s[0] != SLASH && SLASH !in s[1..][..k - 1]
  {
    assert s[..k] == [s[0]] + s[1..][..k - 1];
  }

  lemma {:induction false} SegmentIsFull(p: bytes, n: nat, s: bytes)
    requires n <= |p|
    ensures FurthestInSegment(p, n, s) == |p| <==>
            exists k | 0 <= k <= |s| :: SLASH !in s[..k] && Derives(true, Tokens(p, n), s[k..])
    decreases |p| - n, |s|, 2
  {
    hide *;
    forall k | 0 <= k <= |s| && SLASH !in s[..k] && Derives(true, Tokens(p, n), s[k..])
      ensures FurthestInSegment(p, n, s) == |p|
    {
      SegmentReached(p, n, s, k);
    }
    if FurthestInSegment(p, n, s) == |p| {
      var k := SegmentFound(p, n, s);
    }
  }

  lemma {:induction false} SegmentReached(p: bytes, n: nat, s: bytes, k: nat)
    requires n <= |p| && k <= |s| && SLASH !in s[..k] && Derives(true, Tokens(p, n), s[k..])
    ensures FurthestInSegment(p, n, s) == |p|
    decreases |p| - n, |s|, 1
  {
    hide *;
    SegmentCases(p, n, s);
    if k == 0 {
      assert s[0..] == s;
      WalkIsFull(p, n, s);
    } else {
      LongerStretch(s, k);
      SegmentReached(p, n, s[1..], k - 1);
    }
  }

  lemma {:induction false} SegmentFound(p: bytes, n: nat, s: bytes) returns (k: nat)
    requires n <= |p| && FurthestInSegment(p, n, s) == |p|
    ensures k <= |s| && SLASH !in s[..k] && Derives(true, Tokens(p, n), s[k..])
    decreases |p| - n, |s|, 1
  {
    hide *;
    SegmentCases(p, n, s);
    if Walk(p, n, s) == |p| {
      WalkIsFull(p, n, s);
      k := 0;
      assert s[0..] == s;
    } else {
      var m := SegmentFound(p, n, s[1..]);
      k := m + 1;
      LongerStretch(s, k);
    }
  }

  lemma {:induction false} SlashIsFull(p: bytes, n: nat, s: bytes)
    requires n < |p| && p[n] == SLASH && !DoubleSlash(p, n)
    ensures FurthestAtSlash(p, n, s) == |p| <==> exists k | 0 <= k <= |s| :: Derives(true, Tokens(p, n), s[k..])
    decreases |p| - n, |s|, 2
  {
    forall k | 0 <= k <= |s| && Derives(true, Tokens(p, n), s[k..]) ensures FurthestAtSlash(p, n, s) == |p| {
      SlashReached(p, n, s, k);
    }
    if FurthestAtSlash(p, n, s) == |p| {
      var k := SlashFound(p, n, s);
    }
  }

  lemma {:induction false} SlashReached(p: bytes, n: nat, s: bytes, k: nat)
    requires n < |p| && p[n] == SLASH && !DoubleSlash(p, n)
    requires k <= |s| && Derives(true, Tokens(p, n), s[k..])
    ensures FurthestAtSlash(p, n, s) == |p|
    decreases |p| - n, |s|, 1
  {
    LiteralFirst(p, n, s[k..]);
    if k == 0 {
      assert s[0..] == s;
      WalkIsFull(p, n, s);
    } else {
      var e := Find(s, 1, SLASH);
      assert s[k] == SLASH;
      assert s[e..][k - e..] == s[k..];
      SlashReached(p, n, s[e..], k - e);
    }
  }

  lemma {:induction false} SlashFound(p: bytes, n: nat, s: bytes) returns (k: nat)
    requires n < |p| && p[n] == SLASH && !DoubleSlash(p, n)
    requires FurthestAtSlash(p, n, s) == |p|
    ensures k <= |s| && Derives(true, Tokens(p, n), s[k..])
    decreases |p| - n, |s|, 1
  {
    if Walk(p, n, s) == |p| {
      WalkIsFull(p, n, s);
      k := 0;
      assert s[0..] == s;
    } else {
      var e := Find(s, 1, SLASH);
      var m := SlashFound(p, n, s[e..]);
      k := e + m;
      assert s[e..][m..] == s[k..];
    }
  }

  /** A derivation from a plain slash consumes a slash. */
  lemma LiteralFirst(p: bytes, n: nat, s: bytes)
    requires n < |p| && p[n] == SLASH && !DoubleSlash(p, n)
    requires Derives(true, Tokens(p, n), s)
    ensures s != [] && s[0] == SLASH && Derives(true, Tokens(p, n + 1), s[1..])
  {
    var ts := Tokens(p, n);
    assert ts[0] == Lit(SLASH) && ts[1..] == Tokens(p, n + 1);
    var k :| 0 <= k <= |s| && Splits(true, ts, s, k);
    assert s[..k] == [SLASH];
    assert s[0] == s[..k][0];
  }

  // ----- committed and free derivations

  /** No alternative is a proper prefix of another. */
  predicate PrefixFree(alts: seq<bytes>) {
    forall a, b | a in alts && b in alts :: a <= b ==> a == b
  }

  predicate PrefixFreeLists(ts: seq<Token>) {
    forall t | t in ts && t.OneOf? :: PrefixFree(t.alts)
  }

  lemma {:induction false} CommittedIsFree(ts: seq<Token>, s: bytes)
    requires Derives(true, ts, s)
    ensures Derives(false, ts, s)
    decreases |ts|
  {
    if ts != [] {
      var k :| 0 <= k <= |s| && Splits(true, ts, s, k);
      CommittedIsFree(ts[1..], s[k..]);
      assert Splits(false, ts, s, k);
    }
  }

  lemma {:induction false} FreeIsCommitted(ts: seq<Token>, s: bytes)
    requires PrefixFreeLists(ts)
    requires Derives(false, ts, s)
    ensures Derives(true, ts, s)
    decreases |ts|
  {
    if ts != [] {
      var k :| 0 <= k <= |s| && Splits(false, ts, s, k);
      FreeIsCommitted(ts[1..], s[k..]);
      if ts[0].OneOf? {
        OnlyChoice(ts[0].alts, s, s[..k]);
      }
      assert Splits(true, ts, s, k);
    }
  }

  lemma OnlyChoice(alts: seq<bytes>, s: bytes, a: bytes)
    requires PrefixFree(alts) && a in alts && a <= s
    ensures Choice(alts, s) == Some(a)
  {
    var b := Choice(alts, s).value;
    PrefixesCompare(a, b, s);
  }

  lemma PrefixesCompare(a: bytes, b: bytes, s: bytes)
    requires a <= s && b <= s
    ensures a <= b || b <= a
  {
    if |a| <= |b| {
      assert a == s[..|a|] && b == s[..|b|];
      assert a == b[..|a|];
    } else {
      assert b == a[..|b|];
    }
  }

  // ----- main results on full matches

  /** Soundness, for every pattern: a full match is a derivation of the matching relation. */
  lemma FullMatchSound(pattern: bytes, path: bytes)
    requires FullMatch(pattern, path)
    ensures Matches(Tokens(CStr(pattern), 0), CStr(path))
  {
    WalkIsFull(CStr(pattern), 0, CStr(path));
    CommittedIsFree(Tokens(CStr(pattern), 0), CStr(path));
  }

  /** Exactness for every pattern: a full match is a derivation in which braces commit to their first fit. */
  lemma FullMatchCommits(pattern: bytes, path: bytes)
    ensures FullMatch(pattern, path) <==> Derives(true, Tokens(CStr(pattern), 0), CStr(path))
  {
    WalkIsFull(CStr(pattern), 0, CStr(path));
  }

  /** Exactness for patterns whose brace lists are prefix-free. */
  lemma FullMatchExact(pattern: bytes, path: bytes)
    requires PrefixFreeLists(Tokens(CStr(pattern), 0))
    ensures FullMatch(pattern, path) <==> Matches(Tokens(CStr(pattern), 0), CStr(path))
  {
    var ts := Tokens(CStr(pattern), 0);
    WalkIsFull(CStr(pattern), 0, CStr(path));
    if Derives(true, ts, CStr(path)) {
      CommittedIsFree(ts, CStr(path));
    }
    if Derives(false, ts, CStr(path)) {
      FreeIsCommitted(ts, CStr(path));
    }
  }
}
