/**
 The pattern language spelled out in characters: what each kind of pattern matches, whatever follows it.
 */
module PatternFacts {
  import opened Bytes
  import opened PatternSpec
  import opened PatternLaws

  // ----- a pattern may be read from any place on

  lemma {:induction false} RunEndShift(p: bytes, k: nat, i: nat, c: byte)
    requires k + i <= |p|
    ensures RunEnd(p, k + i, c) == k + RunEnd(p[k..], i, c)
    decreases |p| - i
  {
    if k + i < |p| && p[k + i] == c {
      RunEndShift(p, k, i + 1, c);
    }
  }

  lemma FindShift(p: bytes, k: nat, i: nat, c: byte)
    requires k + i <= |p|
    ensures Find(p, k + i, c) == k + Find(p[k..], i, c)
  {
    FindAt(p[k..], i, c, Find(p, k + i, c) - k);
  }

  lemma {:induction false} ReadRangesShift(p: bytes, k: nat, i: nat)
    requires k + i <= |p|
    ensures ReadRanges(p, k + i) == (ReadRanges(p[k..], i).0, k + ReadRanges(p[k..], i).1)
    decreases |p| - i
  {
    if k + i < |p| && p[k + i] != RBRACKET {
      if k + i + 2 < |p| && p[k + i + 1] == DASH {
        ReadRangesShift(p, k, i + 3);
      } else {
        ReadRangesShift(p, k, i + 1);
      }
    }
  }

  lemma SameKind(p: bytes, k: nat, i: nat)
    requires k + i < |p|
    ensures p[k..][i] == p[k + i]
    ensures DoubleSlash(p, k + i) == DoubleSlash(p[k..], i)
    ensures Compound(p, k + i) == Compound(p[k..], i)
    ensures Negated(p, k + i) == Negated(p[k..], i)
    ensures Compound(p, k + i) ==>
              p[k + i] == LBRACKET || p[k + i] == STAR || DoubleSlash(p, k + i) || p[k + i] == LBRACE
  {
  }

  lemma BracketShift(p: bytes, k: nat, i: nat)
    requires k + i < |p| && p[k + i] == LBRACKET
    ensures Lex(p, k + i) == (Lex(p[k..], i).0, k + Lex(p[k..], i).1)
  {
    hide *;
    SameKind(p, k, i);
    LexBracket(p, k + i);
    LexBracket(p[k..], i);
    NegatedInside(p[k..], i);
    ReadRangesShift(p, k, if Negated(p[k..], i) then i + 2 else i + 1);
  }

  lemma NegatedInside(p: bytes, i: nat)
    requires i < |p|
    ensures Negated(p, i) ==> i + 2 <= |p|
  {
  }

  lemma BraceShift(p: bytes, k: nat, i: nat)
    requires k + i < |p| && p[k + i] == LBRACE
    ensures Lex(p, k + i) == (Lex(p[k..], i).0, k + Lex(p[k..], i).1)
  {
    hide *;
    var q := p[k..];
    SameKind(p, k, i);
    LexBrace(p, k + i);
    LexBrace(q, i);
    FindShift(p, k, i, RBRACE);
    BraceEnd(q, i);
    var e := Find(q, i, RBRACE);
    if e < |q| {
      SliceShift(p, k, i + 1, e);
    }
  }

  lemma LexShift(p: bytes, k: nat, i: nat)
    requires k + i < |p|
    ensures Lex(p, k + i) == (Lex(p[k..], i).0, k + Lex(p[k..], i).1)
  {
    hide *;
    var q := p[k..];
    SameKind(p, k, i);
    if p[k + i] == LBRACKET {
      BracketShift(p, k, i);
    } else if p[k + i] == LBRACE {
      BraceShift(p, k, i);
    } else if p[k + i] == STAR {
      LexStar(p, k + i);
      LexStar(q, i);
      RunEndShift(p, k, i + 1, STAR);
    } else if DoubleSlash(p, k + i) {
      LexSlashes(p, k + i);
      LexSlashes(q, i);
      RunEndShift(p, k, i + 1, SLASH);
    } else {
      LexSimple(p, k + i);
      LexSimple(q, i);
    }
  }

  lemma SliceShift(p: bytes, k: nat, i: nat, e: nat)
    requires k + e <= |p| && i <= e
    ensures p[k..][i..e] == p[k + i..k + e]
  {
  }

  lemma BraceEnd(p: bytes, i: nat)
    requires i < |p| && p[i] == LBRACE
    ensures Find(p, i, RBRACE) > i
  {
  }

  lemma {:induction false} TokensShift(p: bytes, k: nat, i: nat)
    requires k + i <= |p|
    ensures Tokens(p, k + i) == Tokens(p[k..], i)
    decreases |p| - i
  {
    hide *;
    if k + i == |p| {
      TokensEnd(p);
      TokensEnd(p[k..]);
    } else {
      LexShift(p, k, i);
      TokensAt(p, k + i);
      TokensAt(p[k..], i);
      TokensShift(p, k, Lex(p[k..], i).1);
    }
  }

  /** Full matches of patterns and paths without NUL. */
  lemma FullIs(p: bytes, s: bytes)
    requires 0 !in p && 0 !in s
    ensures FullMatch(p, s) <==> Derives(true, Tokens(p, 0), s)
  {
    NulIsZero();
    CStrSame(p);
    CStrSame(s);
    FullMatchCommits(p, s);
  }

  lemma NulIsZero()
    ensures NUL == 0
  {
  }

  /** The first token of a pattern and the pattern after it. */
  lemma FirstToken(x: bytes, post: bytes, s: bytes)
    requires 0 !in x + post && 0 !in s && x != [] && Lex(x + post, 0).1 == |x|
    ensures FullMatch(x + post, s) <==> Derives(true, [Lex(x + post, 0).0] + Tokens(post, 0), s)
    ensures forall k | 0 <= k <= |s| :: FullMatch(post, s[k..]) <==> Derives(true, Tokens(post, 0), s[k..])
  {
    hide *;
    var p := x + post;
    FullIs(p, s);
    TokensAt(p, 0);
    assert p[|x|..] == post;
    TokensShift(p, |x|, 0);
    forall k | 0 <= k <= |s| ensures FullMatch(post, s[k..]) <==> Derives(true, Tokens(post, 0), s[k..]) {
      NoZeroAfter(x, post);
      FullIs(post, s[k..]);
    }
  }

  lemma NoZeroAfter(x: bytes, post: bytes)
    requires 0 !in x + post
    ensures 0 !in post && 0 !in x
  {
    assert forall c | c in post :: c in x + post;
    assert forall c | c in x :: c in x + post;
  }

  // ----- C strings

  /** Only what comes before the first NUL counts, of the pattern and of the path. */
  lemma StringsEndAtNul(p: bytes, more: bytes, s: bytes, rest: bytes)
    requires 0 !in p && 0 !in s
    ensures FullMatch(p + [0] + more, s + [0] + rest) == FullMatch(p, s)
    ensures PartialMatch(p + [0] + more, s + [0] + rest) == PartialMatch(p, s)
  {
    CStrEnds(p, more);
    CStrEnds(s, rest);
    CStrSame(p);
    CStrSame(s);
    hide CStr, Walk;
  }

  // ----- the empty pattern, single characters

  lemma EmptyPatternMatches(s: bytes)
    requires 0 !in s
    ensures FullMatch([], s) <==> s == []
  {
    FullIs([], s);
    DerivesNothing(s);
  }

  /** The characters that stand for themselves: all but `*`, `?`, `[` and `{`, and a slash before another. */
  lemma LetterMatches(c: byte, post: bytes, s: bytes)
    requires 0 !in [c] + post && 0 !in s && c !in {42, 63, 91, 123}
    requires c == 47 && post != [] ==> post[0] != 47
    ensures FullMatch([c] + post, s) <==> s != [] && s[0] == c && FullMatch(post, s[1..])
  {
    var p := [c] + post;
    assert Lex(p, 0) == (Lit(c), 1);
    FirstToken([c], post, s);
    DerivesByte(Lit(c), Tokens(post, 0), s);
    hide Tokens, Derives, FullMatch, Lex;
    assert s != [] ==> s[..1] == [s[0]];
  }

  /** `?` matches any character, a slash included. */
  lemma QuestionMatches(post: bytes, s: bytes)
    requires 0 !in [63] + post && 0 !in s
    ensures FullMatch([63] + post, s) <==> s != [] && FullMatch(post, s[1..])
  {
    assert Lex([63] + post, 0) == (AnyChar, 1);
    FirstToken([63], post, s);
    DerivesByte(AnyChar, Tokens(post, 0), s);
    hide Tokens, Derives, FullMatch, Lex;
  }

  // ----- runs

  /** `*` matches any run without a slash. */
  lemma StarMatches(post: bytes, s: bytes)
    requires 0 !in [42] + post && 0 !in s && (post != [] ==> post[0] != 42)
    ensures FullMatch([42] + post, s) <==> exists k | 0 <= k <= |s| :: 47 !in s[..k] && FullMatch(post, s[k..])
  {
    assert Lex([42] + post, 0) == (Star, 1) by { assert RunEnd([42] + post, 1, STAR) == 1; }
    FirstToken([42], post, s);
    DerivesStretch(Star, Tokens(post, 0), s);
    hide Tokens, Derives, FullMatch, Lex;
  }

  lemma RunOfStarsMatches(post: bytes, s: bytes)
    requires 0 !in [42, 42] + post && 0 !in s
    ensures FullMatch([42, 42] + post, s) == FullMatch([42] + post, s)
  {
    SameRest([42, 42] + post, [42] + post, 1, s);
    assert ([42, 42] + post)[1..] == [42] + post;
    assert RunEnd([42, 42] + post, 2, STAR) == RunEnd([42, 42] + post, 1, STAR);
    RunEndShift([42, 42] + post, 1, 1, STAR);
  }

  /** Two patterns that start with the same token and go on alike match alike. */
  lemma SameRest(p: bytes, q: bytes, k: nat, s: bytes)
    requires 0 !in p && 0 !in s && k < |p| && q == p[k..] && q != []
    ensures Lex(p, 0) == (Lex(q, 0).0, k + Lex(q, 0).1) ==> FullMatch(p, s) == FullMatch(q, s)
  {
    hide *;
    assert 0 !in q by { assert p == p[..k] + q; NoZeroAfter(p[..k], q); }
    FullIs(p, s);
    FullIs(q, s);
    TokensAt(p, 0);
    TokensAt(q, 0);
    TokensShift(p, k, Lex(q, 0).1);
  }

  /** A double slash matches a slash and whatever leads up to it. */
  lemma DoubleSlashMatches(post: bytes, s: bytes)
    requires 0 !in [47, 47] + post && 0 !in s && (post != [] ==> post[0] != 47)
    ensures FullMatch([47, 47] + post, s) <==> exists k | 0 <= k <= |s| :: FullMatch([47] + post, s[k..])
  {
    var p := [47, 47] + post;
    assert p == [47] + ([47] + post);
    assert RunEnd(p, 2, SLASH) == 2 && RunEnd(p, 1, SLASH) == 2;
    assert Lex(p, 0) == (Gap, 1);
    FirstToken([47], [47] + post, s);
    DerivesStretch(Gap, Tokens([47] + post, 0), s);
    hide Tokens, Derives, FullMatch, Lex;
  }

  lemma RunOfSlashesMatches(post: bytes, s: bytes)
    requires 0 !in [47, 47, 47] + post && 0 !in s
    ensures FullMatch([47, 47, 47] + post, s) == FullMatch([47, 47] + post, s)
  {
    var p := [47, 47, 47] + post;
    SameRest(p, [47, 47] + post, 1, s);
    assert p[1..] == [47, 47] + post;
    assert RunEnd(p, 1, SLASH) == RunEnd(p, 2, SLASH);
    RunEndShift(p, 1, 1, SLASH);
    LexSlashes(p, 0);
    LexSlashes([47, 47] + post, 0);
  }

  // ----- brace lists

  lemma {:induction false} BraceLex(p: bytes, e: nat)
    requires 0 < e < |p| && p[0] == 123 && p[e] == 125 && forall j | 0 < j < e :: p[j] != 125
    ensures Lex(p, 0) == (OneOf(Split(p[1..e])), e + 1)
  {
    hide Split, Lex;
    FindAt(p, 0, RBRACE, e);
    LexBrace(p, 0);
  }

  lemma {:induction false} ClosedBrace(list: bytes, post: bytes)
    requires 125 !in list
    ensures Lex([123] + list + [125] + post, 0) == (OneOf(Split(list)), |list| + 2)
  {
    hide *;
    var p := [123] + list + [125] + post;
    var e := |list| + 1;
    assert p[1..e] == list && p[e] == 125;
    forall j | 0 < j < e ensures p[j] != 125 {
      assert p[j] == list[j - 1] && list[j - 1] in list;
    }
    BraceLex(p, e);
  }

  lemma ListMatches(list: bytes, post: bytes, s: bytes)
    requires 125 !in list && 0 !in [123] + list + [125] + post && 0 !in s
    ensures FullMatch([123] + list + [125] + post, s) <==>
            Choice(Split(list), s).Some? && FullMatch(post, s[|Choice(Split(list), s).value|..])
  {
    hide *;
    ClosedBrace(list, post);
    FirstToken([123] + list + [125], post, s);
    DerivesOneOf(Split(list), Tokens(post, 0), s);
    ChoiceIs(Split(list), s);
  }

  lemma ChoiceFirst(a: bytes, alts: seq<bytes>, s: bytes)
    ensures Choice([a] + alts, s) == if a <= s then Some(a) else Choice(alts, s)
    ensures Choice([], s) == None
  {
    assert ([a] + alts)[1..] == alts;
  }

  /** A list of one alternative. */
  lemma LastAlternativeMatches(a: bytes, post: bytes, s: bytes)
    requires 125 !in a && 44 !in a && 0 !in [123] + a + [125] + post && 0 !in s
    ensures FullMatch([123] + a + [125] + post, s) <==> a <= s && FullMatch(post, s[|a|..])
  {
    ListMatches(a, post, s);
    FindAt(a, 0, COMMA, |a|);
    ChoiceFirst(a, [], s);
    hide FullMatch, Choice;
    assert Split(a) == [a] + [];
  }

  /** The first alternative is taken if the path starts with it, whatever comes after; else the others are tried. */
  lemma AlternativeMatches(a: bytes, more: bytes, post: bytes, s: bytes)
    requires 125 !in a + more && 44 !in a && 0 !in [123] + a + [44] + more + [125] + post && 0 !in s
    ensures FullMatch([123] + a + [44] + more + [125] + post, s) <==>
            if a <= s then FullMatch(post, s[|a|..]) else FullMatch([123] + more + [125] + post, s)
  {
    hide *;
    var list := a + [44] + more;
    AlternativeText(a, more, post);
    ListMatches(list, post, s);
    ListMatches(more, post, s);
    SplitFirst(a, more);
    ChoiceFirst(a, Split(more), s);
  }

  lemma AlternativeText(a: bytes, more: bytes, post: bytes)
    ensures var list := a + [44] + more;
            && [123] + a + [44] + more + [125] + post == [123] + list + [125] + post
            && (125 !in a + more ==> 125 !in list && 125 !in more)
            && (0 !in [123] + list + [125] + post ==> 0 !in [123] + more + [125] + post)
  {
    var list := a + [44] + more;
    assert forall c | c in more :: c in a + more && c in list;
    assert forall c | c in a :: c in a + more;
    assert forall c | c in list :: c in [123] + list + [125] + post;
    assert forall c | c in post :: c in [123] + list + [125] + post;
  }

  lemma {:induction false} SplitFirst(a: bytes, more: bytes)
    requires 44 !in a
    ensures Split(a + [44] + more) == [a] + Split(more)
  {
    var list := a + [44] + more;
    assert forall k | 0 <= k < |a| :: list[k] == a[k];
    FindAt(list, 0, COMMA, |a|);
    assert list[..|a|] == a && list[|a| + 1..] == more;
    hide Find;
  }

  /** A brace that is never closed matches nothing. */
  lemma UnclosedBraceMatches(x: bytes, s: bytes)
    requires 125 !in x && 0 !in [123] + x && 0 !in s
    ensures !FullMatch([123] + x, s)
  {
    var p := [123] + x;
    FindAt(p, 0, RBRACE, |p|);
    LexBrace(p, 0);
    assert p == p + [];
    FirstToken(p, [], s);
    DerivesNever(OpenBrace, Tokens([], 0), s);
  }

  // ----- brackets

  /** The order of characters is that of the platform's `char`: by value below 128, and either way above. */
  lemma CharOrder(a: byte, b: byte)
    ensures a < 128 && b < 128 ==> (Rank(a) <= Rank(b) <==> a <= b)
    ensures CHAR_IS_SIGNED ==> (Rank(a) <= Rank(b) <==> (a + 128) % 256 <= (b + 128) % 256)
    ensures !CHAR_IS_SIGNED ==> (Rank(a) <= Rank(b) <==> a <= b)
  {
  }

  /** Whether a range of characters has a character, in terms of the platform's `char`. */
  predicate Within(lo: byte, c: byte, hi: byte) {
    if CHAR_IS_SIGNED then (lo + 128) % 256 <= (c + 128) % 256 <= (hi + 128) % 256 else lo <= c <= hi
  }

  lemma WithinIs(lo: byte, c: byte, hi: byte)
    ensures Within(lo, c, hi) <==> Rank(lo) <= Rank(c) <= Rank(hi)
    ensures lo < 128 && c < 128 && hi < 128 ==> (Within(lo, c, hi) <==> lo <= c <= hi)
    ensures Within(lo, c, lo) <==> c == lo
  {
  }

  lemma CharOf(c: byte, ranges: seq<(byte, byte)>, lo: byte, hi: byte)
    ensures InRanges(c, [(lo, hi)] + ranges) <==> Within(lo, c, hi) || InRanges(c, ranges)
    ensures !InRanges(c, [])
  {
    WithinIs(lo, c, hi);
    hide Rank, Within;
    var all := [(lo, hi)] + ranges;
    assert (lo, hi) in all && forall r | r in ranges :: r in all;
  }

  /** The text between brackets can be read on its own: it has no closing bracket and does not end in a dash. */
  predicate Body(body: bytes) {
    93 !in body && (body != [] ==> body[|body| - 1] != 45)
  }

  /** The ranges written between brackets. */
  function Ranges(body: bytes): seq<(byte, byte)> {
    ReadRanges(body + [93], 0).0
  }

  lemma {:induction false} BodyReads(pre: bytes, body: bytes, post: bytes, k: nat)
    requires Body(body) && k <= |body|
    ensures ReadRanges(pre + body + [93] + post, |pre| + k) == (ReadRanges(body + [93], k).0, |pre| + |body|)
    decreases |body| - k
  {
    var p, q := pre + body + [93] + post, body + [93];
    assert forall j | 0 <= j < |q| :: p[|pre| + j] == q[j];
    if k < |body| {
      assert q[k] == body[k] && body[k] in body;
      if k + 1 < |body| && q[k + 1] == DASH {
        assert body[|body| - 1] != 45;
        BodyReads(pre, body, post, k + 3);
      } else {
        BodyReads(pre, body, post, k + 1);
      }
    }
  }

  lemma ClosedBracket(body: bytes, post: bytes)
    requires Body(body)
    ensures body == [] || body[0] != 33 ==>
              Lex([91] + body + [93] + post, 0) == (Class(false, Ranges(body)), |body| + 2)
    ensures Lex([91, 33] + body + [93] + post, 0) == (Class(true, Ranges(body)), |body| + 3)
  {
    BodyReads([91], body, post, 0);
    BodyReads([91, 33], body, post, 0);
    var p, n := [91] + body + [93] + post, [91, 33] + body + [93] + post;
    assert p[0] == 91 && p[1] == (body + [93])[0] && n[0] == 91 && n[1] == 33;
    LexBracket(p, 0);
    LexBracket(n, 0);
    hide ReadRanges, Lex;
  }

  lemma ClassMatches(x: bytes, post: bytes, s: bytes)
    requires 0 !in x + post && 0 !in s && x != [] && Lex(x + post, 0).1 == |x| && Lex(x + post, 0).0.Class?
    ensures var t := Lex(x + post, 0).0;
            FullMatch(x + post, s) <==> s != [] && InRanges(s[0], t.ranges) != t.negated && FullMatch(post, s[1..])
  {
    FirstToken(x, post, s);
    DerivesByte(Lex(x + post, 0).0, Tokens(post, 0), s);
    hide Tokens, Derives, FullMatch, Lex, InRanges;
  }

  /** What brackets around a body match, not negated. */
  lemma BodyMatches(body: bytes, post: bytes, s: bytes)
    requires Body(body) && (body != [] ==> body[0] != 33) && 0 !in [91] + body + [93] + post && 0 !in s
    ensures FullMatch([91] + body + [93] + post, s) <==>
            s != [] && InRanges(s[0], Ranges(body)) && FullMatch(post, s[1..])
  {
    hide *;
    ClosedBracket(body, post);
    ClassMatches([91] + body + [93], post, s);
  }

  /** Empty brackets match nothing. */
  lemma EmptyBracketMatches(post: bytes, s: bytes)
    requires 0 !in [91, 93] + post && 0 !in s
    ensures !FullMatch([91, 93] + post, s)
  {
    assert [91, 93] + post == [91] + [] + [93] + post;
    BodyMatches([], post, s);
    assert Ranges([]) == [];
  }

  /** A single character at the front of a class. */
  lemma MemberMatches(x: byte, body: bytes, post: bytes, s: bytes)
    requires x !in {33, 93} && Body([x] + body) && Body(body) && (body != [] ==> body[0] !in {33, 45})
    requires 0 !in [91, x] + body + [93] + post && 0 !in s
    ensures FullMatch([91, x] + body + [93] + post, s) <==>
            || (s != [] && s[0] == x && FullMatch(post, s[1..]))
            || FullMatch([91] + body + [93] + post, s)
  {
    assert [91, x] + body + [93] + post == [91] + ([x] + body) + [93] + post;
    assert forall c | c in [91] + body + [93] + post :: c in [91, x] + body + [93] + post;
    hide *;
    BodyMatches([x] + body, post, s);
    BodyMatches(body, post, s);
    MemberRanges(x, body);
    if s != [] {
      CharOf(s[0], Ranges(body), x, x);
      WithinIs(x, s[0], x);
    }
  }

  lemma MemberRanges(x: byte, body: bytes)
    requires Body([x] + body) && (body != [] ==> body[0] != 45)
    ensures Ranges([x] + body) == [(x, x)] + Ranges(body)
  {
    var q := [x] + body + [93];
    assert q == [x] + (body + [93]) && q[1..] == body + [93];
    assert x in [x] + body;
    ReadRangesShift(q, 1, 0);
  }

  /** A range at the front of a class. */
  lemma RangeMatches(lo: byte, hi: byte, body: bytes, post: bytes, s: bytes)
    requires lo !in {33, 93} && Body([lo, 45, hi] + body) && Body(body) && (body != [] ==> body[0] != 33)
    requires 0 !in [91, lo, 45, hi] + body + [93] + post && 0 !in s
    ensures FullMatch([91, lo, 45, hi] + body + [93] + post, s) <==>
            || (s != [] && Within(lo, s[0], hi) && FullMatch(post, s[1..]))
            || FullMatch([91] + body + [93] + post, s)
  {
    assert [91, lo, 45, hi] + body + [93] + post == [91] + ([lo, 45, hi] + body) + [93] + post;
    assert forall c | c in [91] + body + [93] + post :: c in [91, lo, 45, hi] + body + [93] + post;
    hide *;
    BodyMatches([lo, 45, hi] + body, post, s);
    BodyMatches(body, post, s);
    RangeRanges(lo, hi, body);
    if s != [] {
      CharOf(s[0], Ranges(body), lo, hi);
    }
  }

  lemma RangeRanges(lo: byte, hi: byte, body: bytes)
    requires Body([lo, 45, hi] + body)
    ensures Ranges([lo, 45, hi] + body) == [(lo, hi)] + Ranges(body)
  {
    var q := [lo, 45, hi] + body + [93];
    assert q == [lo, 45, hi] + (body + [93]) && q[3..] == body + [93];
    assert lo in [lo, 45, hi] + body;
    ReadRangesShift(q, 3, 0);
  }

  /** A negated class matches the characters that the class does not. */
  lemma NegatedMatches(body: bytes, post: bytes, s: bytes)
    requires Body(body) && (body != [] ==> body[0] != 33) && 0 !in [91, 33] + body + [93] + post && 0 !in s
    ensures FullMatch([91, 33] + body + [93] + post, s) <==>
            s != [] && !FullMatch([91] + body + [93], [s[0]]) && FullMatch(post, s[1..])
  {
    assert forall c | c in [91] + body + [93] :: c in [91, 33] + body + [93] + post;
    assert [91] + body + [93] + [] == [91] + body + [93];
    hide *;
    ClosedBracket(body, post);
    ClassMatches([91, 33] + body + [93], post, s);
    if s != [] {
      BodyMatches(body, [], [s[0]]);
      EmptyPatternMatches([]);
    }
  }

  /** A class of one range takes exactly the characters from `lo` to `hi`, also if one is a bracket or a dash. */
  lemma OneRangeMatches(lo: byte, hi: byte, post: bytes, s: bytes)
    requires lo !in {33, 93} && 0 !in [91, lo, 45, hi, 93] + post && 0 !in s
    ensures FullMatch([91, lo, 45, hi, 93] + post, s) <==> s != [] && Within(lo, s[0], hi) && FullMatch(post, s[1..])
  {
    hide *;
    OneRange(lo, hi, post);
    ClassMatches([91, lo, 45, hi, 93], post, s);
    if s != [] {
      CharOf(s[0], [], lo, hi);
    }
  }

  lemma OneNegatedRangeMatches(lo: byte, hi: byte, post: bytes, s: bytes)
    requires lo != 93 && 0 !in [91, 33, lo, 45, hi, 93] + post && 0 !in s
    ensures FullMatch([91, 33, lo, 45, hi, 93] + post, s) <==>
            s != [] && !Within(lo, s[0], hi) && FullMatch(post, s[1..])
  {
    hide *;
    OneRange(lo, hi, post);
    ClassMatches([91, 33, lo, 45, hi, 93], post, s);
    if s != [] {
      CharOf(s[0], [], lo, hi);
    }
  }

  lemma OneRange(lo: byte, hi: byte, post: bytes)
    requires lo != 93
    ensures lo != 33 ==> Lex([91, lo, 45, hi, 93] + post, 0) == (Class(false, [(lo, hi)] + []), 5)
    ensures Lex([91, 33, lo, 45, hi, 93] + post, 0) == (Class(true, [(lo, hi)] + []), 6)
  {
    var p, n := [91, lo, 45, hi, 93] + post, [91, 33, lo, 45, hi, 93] + post;
    assert ReadRanges(p, 4) == ([], 4) && ReadRanges(p, 1) == ([(lo, hi)] + [], 4);
    assert ReadRanges(n, 5) == ([], 5) && ReadRanges(n, 2) == ([(lo, hi)] + [], 5);
    LexBracket(p, 0);
    LexBracket(n, 0);
    hide ReadRanges, Lex;
  }

  /** The same for characters below 128, and a single one in the path. */
  lemma AsciiRange(lo: byte, hi: byte, c: byte)
    requires 0 < lo < 128 && 0 < hi < 128 && 0 < c < 128
    ensures lo !in {33, 93} ==> (FullMatch([91, lo, 45, hi, 93], [c]) <==> lo <= c <= hi)
    ensures lo != 93 ==> (FullMatch([91, 33, lo, 45, hi, 93], [c]) <==> !(lo <= c <= hi))
  {
    assert [91, lo, 45, hi, 93] + [] == [91, lo, 45, hi, 93];
    assert [91, 33, lo, 45, hi, 93] + [] == [91, 33, lo, 45, hi, 93];
    hide *;
    WithinIs(lo, c, hi);
    EmptyPatternMatches([]);
    if lo !in {33, 93} {
      OneRangeMatches(lo, hi, [], [c]);
    }
    if lo != 93 {
      OneNegatedRangeMatches(lo, hi, [], [c]);
    }
  }

  /** A dash before the closing bracket makes a range up to that bracket, and another bracket has to close. */
  lemma DashTakesBracket(c: byte)
    requires c != 0
    ensures FullMatch([91, 97, 45, 93, 120, 93], [c]) <==> c == 120
  {
    var p: bytes := [91, 97, 45, 93, 120, 93];
    assert ReadRanges(p, 5) == ([], 5) && ReadRanges(p, 4) == ([(120, 120)] + [], 5);
    assert ReadRanges(p, 1) == ([(97, 93)] + ([(120, 120)] + []), 5);
    LexBracket(p, 0);
    assert p + [] == p;
    hide ReadRanges, Lex;
    ClassMatches(p, [], [c]);
    EmptyPatternMatches([]);
    CharOf(c, [], 120, 120);
    CharOf(c, [(120, 120)] + [], 97, 93);
  }

  /** A bracket that is never closed matches nothing. */
  lemma UnclosedBracketMatches(x: bytes, s: bytes)
    requires 93 !in x && 0 !in [91] + x && 0 !in s
    ensures !FullMatch([91] + x, s)
  {
    var p := [91] + x;
    assert p == p + [] && forall k | 0 <= k < |p| :: p[k] != 93;
    NoClosingBracket(p, if Negated(p, 0) then 2 else 1);
    LexBracket(p, 0);
    FirstToken(p, [], s);
    DerivesNever(OpenBracket, Tokens([], 0), s);
  }

  lemma NoClosingBracket(p: bytes, k: nat)
    requires k <= |p| && forall j | 0 <= j < |p| :: p[j] != 93
    ensures ReadRanges(p, k).1 == |p|
  {
  }

  // ----- some of the library's own matching tests

  /** A word of characters that stand for themselves. */
  lemma {:induction false} WordMatches(w: bytes, post: bytes, s: bytes)
    requires forall c | c in w :: c !in {42, 63, 91, 123}
    requires forall i | 0 <= i < |w| && w[i] == 47 :: i + 1 < |w + post| ==> (w + post)[i + 1] != 47
    requires 0 !in w + post && 0 !in s
    ensures FullMatch(w + post, s) <==> w <= s && FullMatch(post, s[|w|..])
    decreases |w|
  {
    hide *;
    if w == [] {
      assert w + post == post && s[0..] == s;
    } else {
      var rest := w[1..];
      assert w == [w[0]] + rest && w + post == [w[0]] + (rest + post);
      assert w[0] in w && forall c | c in rest :: c in w;
      LetterMatches(w[0], rest + post, s);
      if s != [] && s[0] == w[0] {
        assert forall i | 0 <= i < |rest + post| :: (rest + post)[i] == (w + post)[i + 1];
        NoZeroAfter([w[0]], rest + post);
        WordMatches(rest, post, s[1..]);
        assert w <= s <==> rest <= s[1..];
        if w <= s {
          assert s[1..][|rest|..] == s[|w|..];
        }
      }
    }
  }

  /** `/fo{bar,}/ba[e-t]` and `/fo{bar,}/ba[t-z]` with the path `/fo/bar`: a match and a mismatch. */
  lemma TestOfListAndRange(lo: byte, hi: byte)
    requires 94 <= lo < 128 && 94 <= hi < 128
    ensures var pattern := [47, 102, 111, 123, 98, 97, 114, 44, 125, 47, 98, 97, 91, lo, 45, hi, 93];
            FullMatch(pattern, [47, 102, 111, 47, 98, 97, 114]) <==> lo <= 114 <= hi
  {
    hide *;
    var range := [91, lo, 45, hi, 93];
    var tail := [47, 98, 97] + range;
    var fo, bar: bytes := [47, 102, 111], [98, 97, 114];
    var path: bytes := [47, 98, 97, 114];
    assert [47, 102, 111, 123, 98, 97, 114, 44, 125, 47, 98, 97, 91, lo, 45, hi, 93] ==
           fo + ([123] + bar + [44] + [] + [125] + tail);
    assert [47, 102, 111, 47, 98, 97, 114] == fo + path && (fo + path)[3..] == path;
    WordMatches(fo, [123] + bar + [44] + [] + [125] + tail, fo + path);
    assert bar[0] != path[0];
    AlternativeMatches(bar, [], tail, path);
    LastAlternativeMatches([], tail, path);
    assert path[0..] == path && path[3..] == [114];
    WordMatches([47, 98, 97], range, path);
    AsciiRange(lo, hi, 114);
  }

  /** `//bar` does not match `bar`, and matches `/foo/plop/bar` whatever foo and plop are. */
  lemma TestOfDoubleSlash(foo: bytes, plop: bytes)
    requires 0 !in foo && 0 !in plop
    ensures !FullMatch([47, 47, 98, 97, 114], [98, 97, 114])
    ensures FullMatch([47, 47, 98, 97, 114], [47] + foo + [47] + plop + [47, 98, 97, 114])
  {
    hide *;
    var bar: bytes := [98, 97, 114];
    var word: bytes := [47, 98, 97, 114];
    assert [47, 47, 98, 97, 114] == [47, 47] + bar && [47] + bar == word && word + [] == word;
    EmptyPatternMatches([]);
    DoubleSlashMatches(bar, bar);
    forall k | 0 <= k <= |bar| ensures !FullMatch(word, bar[k..]) {
      WordMatches(word, [], bar[k..]);
      assert !(word <= bar[k..]);
    }
    var s := [47] + foo + [47] + plop + word;
    var k := |foo| + |plop| + 2;
    assert s[k..] == word && word[4..] == [];
    DoubleSlashMatches(bar, s);
    WordMatches(word, [], word);
  }
}
