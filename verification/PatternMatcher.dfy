/**
 The address matcher itself: nested loops over the pattern that call themselves for wildcards. The
 pointers of the original are indices; `At` reads the terminating NUL at the end of a string.
 */
module PatternMatcher {
  import opened Bytes
  import opened PatternSpec
  import opened PatternLaws
  import opened BraceLaws

  /** The character a pointer into a C string sees. */
  function At(s: bytes, i: nat): byte
    requires i <= |s|
  {
    if i < |s| then s[i] else NUL
  }

  /** One bracket: whether `c` is in its class, and where the scan over the ranges stopped. */
  method ScanBracket(p: bytes, start: nat, c: byte, reverse: bool) returns (matched: bool, k: nat)
    requires NUL !in p && start <= |p|
    ensures k == ReadRanges(p, start).1
    ensures matched == (InRanges(c, ReadRanges(p, start).0) != reverse)
  {
    hide InRanges, ReadRanges, Rank;
    ghost var found := false;
    matched := reverse;
    k := start;
    NoRanges(p, c);
    while At(p, k) != NUL && At(p, k) != RBRACKET
      invariant start <= k <= |p|
      invariant ReadRanges(p, start).1 == ReadRanges(p, k).1
      invariant InRanges(c, ReadRanges(p, start).0) == (found || InRanges(c, ReadRanges(p, k).0))
      invariant matched == (found != reverse)
      decreases |p| - k
    {
      var c0 := p[k];
      var c1 := c0;
      ReadRangesStep(p, k, c);
      if At(p, k + 1) == DASH && At(p, k + 2) != NUL {
        k := k + 2;
        c1 := p[k];
      }
      if Rank(c) >= Rank(c0) && Rank(c) <= Rank(c1) {
        found, matched := true, !reverse;
      }
      k := k + 1;
    }
  }

  lemma NoRanges(p: bytes, c: byte)
    ensures forall k | 0 <= k <= |p| && (k == |p| || p[k] == RBRACKET) ::
              ReadRanges(p, k).1 == k && !InRanges(c, ReadRanges(p, k).0)
  {
  }

  lemma ReadRangesStep(p: bytes, k: nat, c: byte)
    requires k < |p| && p[k] != RBRACKET
    ensures var wide := k + 2 < |p| && p[k + 1] == DASH;
            var next := if wide then k + 3 else k + 1;
            var top := if wide then p[k + 2] else p[k];
            && (InRanges(c, ReadRanges(p, k).0) <==>
                Rank(p[k]) <= Rank(c) <= Rank(top) || InRanges(c, ReadRanges(p, next).0))
            && ReadRanges(p, k).1 == ReadRanges(p, next).1
  {
    var wide := k + 2 < |p| && p[k + 1] == DASH;
    var next := if wide then k + 3 else k + 1;
    InRangesCons(c, (p[k], if wide then p[k + 2] else p[k]), ReadRanges(p, next).0);
  }

  lemma InRangesCons(c: byte, r: (byte, byte), ranges: seq<(byte, byte)>)
    ensures InRanges(c, [r] + ranges) <==> Rank(r.0) <= Rank(c) <= Rank(r.1) || InRanges(c, ranges)
  {
    if InRanges(c, ranges) {
      var q :| q in ranges && Rank(q.0) <= Rank(c) <= Rank(q.1);
      assert q in [r] + ranges;
    }
    assert r in [r] + ranges;
  }

  /** One brace list: the first alternative that the path starts with. `end` is the closing brace. */
  method ScanBraces(p: bytes, i: nat, end: nat, path: bytes, j: nat) returns (pick: Option<bytes>)
    requires i < end < |p| && end == Find(p, i, RBRACE) && j <= |path|
    ensures pick == Choice(Split(p[i + 1..end]), path[j..])
  {
    ghost var first := Choice(Split(p[i + 1..end]), path[j..]);
    var k := i;
    while true
      invariant i <= k < end
      invariant first == Choice(Split(p[k + 1..end]), path[j..])
      decreases end - k
    {
      k := k + 1;
      var q := Find(p, k, COMMA);
      if q == |p| || q > end { q := end; }
      SplitStep(p, k, q, end, path[j..]);
      if p[k..q] <= path[j..] { return Some(p[k..q]); }
      if q == end { return None; }
      k := q;
    }
  }

  /** The first alternative in `p[k..end]` is `p[k..q]`, and the others follow the comma at `q`, if there is one. */
  lemma SplitStep(p: bytes, k: nat, q: nat, end: nat, s: bytes)
    requires k <= q <= end < |p|
    requires forall m | k <= m < q :: p[m] != COMMA
    requires q < end ==> p[q] == COMMA
    ensures Choice(Split(p[k..end]), s) ==
            if p[k..q] <= s then Some(p[k..q])
            else if q < end then Choice(Split(p[q + 1..end]), s)
            else None
  {
    hide *;
    var list := p[k..end];
    forall m | 0 <= m < q - k ensures list[m] != COMMA {
      assert list[m] == p[k + m];
    }
    FindAt(list, 0, COMMA, q - k);
    SplitAtComma(list, q - k);
    assert list[..q - k] == p[k..q];
    if q < end {
      assert list[q - k + 1..] == p[q + 1..end];
      ChoiceCons(p[k..q], Split(p[q + 1..end]), s);
    } else {
      assert list == p[k..q] && [list] == [list] + [];
      ChoiceCons(p[k..q], [], s);
    }
  }

  lemma {:induction false} SplitAtComma(list: bytes, k: nat)
    requires k == Find(list, 0, COMMA)
    ensures Split(list) == if k == |list| then [list] else [list[..k]] + Split(list[k + 1..])
  {
    hide Find;
    hide COMMA;
  }

  lemma ChoiceCons(a: bytes, alts: seq<bytes>, s: bytes)
    ensures Choice([a] + alts, s) == if a <= s then Some(a) else Choice(alts, s)
    ensures Choice([], s) == None
  {
    assert ([a] + alts)[1..] == alts;
  }

  // ----- one step of `Walk` for each kind of pattern character

  lemma SimpleIs(p: bytes, i: nat)
    requires i < |p|
    ensures Compound(p, i) <==> p[i] == LBRACKET || p[i] == STAR || DoubleSlash(p, i) || p[i] == LBRACE
    ensures DoubleSlash(p, i) ==> p[i] == SLASH
    ensures QUESTION != LBRACKET && QUESTION != STAR && QUESTION != LBRACE && QUESTION != SLASH
  {
  }

  lemma ByteConsumed(t: Token, s: bytes)
    requires s != []
    ensures t.Lit? ==> (Consumes(t, s[..1]) <==> s[0] == t.c)
    ensures t.AnyChar? ==> Consumes(t, s[..1])
    ensures t.Class? ==> (Consumes(t, s[..1]) <==> InRanges(s[0], t.ranges) != t.negated)
  {
    hide InRanges;
    assert s[..1] == [s[0]];
  }

  lemma WalkQuestion(p: bytes, i: nat, s: bytes)
    requires i < |p| && p[i] == QUESTION && s != []
    ensures Walk(p, i, s) == Walk(p, i + 1, s[1..])
  {
    hide *;
    SimpleIs(p, i);
    LexSimple(p, i);
    WalkAt(p, i, s);
    ByteConsumed(AnyChar, s);
  }

  lemma WalkBracket(p: bytes, i: nat, s: bytes, start: nat)
    requires i < |p| && p[i] == LBRACKET && s != []
    requires start == if Negated(p, i) then i + 2 else i + 1
    ensures var (ranges, e) := ReadRanges(p, start);
            Walk(p, i, s) == if e == |p| || InRanges(s[0], ranges) == Negated(p, i) then i else Walk(p, e + 1, s[1..])
  {
    hide *;
    LexBracket(p, i);
    WalkAt(p, i, s);
    ByteConsumed(Lex(p, i).0, s);
  }

  lemma WalkStar(p: bytes, i: nat, s: bytes)
    requires i < |p| && p[i] == STAR
    ensures Walk(p, i, s) == FurthestInSegment(p, RunEnd(p, i, STAR), s)
  {
    hide *;
    LexStar(p, i);
    WalkAt(p, i, s);
    RunStep(p, i);
  }

  lemma RunStep(p: bytes, i: nat)
    requires i < |p|
    ensures RunEnd(p, i, p[i]) == RunEnd(p, i + 1, p[i])
  {
  }

  lemma WalkSlashes(p: bytes, i: nat, s: bytes)
    requires i < |p| && DoubleSlash(p, i)
    ensures Walk(p, i, s) == FurthestAtSlash(p, RunEnd(p, i, SLASH) - 1, s)
  {
    hide *;
    LexSlashes(p, i);
    WalkAt(p, i, s);
    RunStep(p, i);
  }

  lemma BraceIsLater(p: bytes, i: nat)
    requires i < |p| && p[i] == LBRACE
    ensures Find(p, i, RBRACE) > i
  {
  }

  lemma WalkBraces(p: bytes, i: nat, path: bytes, j: nat, e: nat)
    requires i < |p| && j <= |path| && p[i] == LBRACE && e == Find(p, i, RBRACE)
    ensures e == |p| ==> Walk(p, i, path[j..]) == NO_MATCH
    ensures e < |p| ==> var pick := Choice(Split(p[i + 1..e]), path[j..]);
                        Walk(p, i, path[j..]) == if pick.None? then i else Walk(p, e + 1, path[j + |pick.value|..])
  {
    hide *;
    BraceIsLater(p, i);
    LexBrace(p, i);
    WalkAt(p, i, path[j..]);
    if e < |p| {
      var pick := Choice(Split(p[i + 1..e]), path[j..]);
      ChoiceIs(Split(p[i + 1..e]), path[j..]);
      if pick.Some? {
        assert path[j..][|pick.value|..] == path[j + |pick.value|..];
      }
    }
  }

  /** A character that needs no special treatment here, or a path that has come to its end. */
  lemma WalkLiteral(p: bytes, i: nat, s: bytes)
    requires i < |p| && p[i] != STAR && p[i] != LBRACE && !DoubleSlash(p, i)
    requires s == [] || (p[i] != QUESTION && p[i] != LBRACKET)
    ensures Walk(p, i, s) == if s == [] then i else if p[i] == s[0] then Walk(p, i + 1, s[1..]) else NO_MATCH
  {
    hide *;
    SimpleIs(p, i);
    WalkAt(p, i, s);
    if p[i] == LBRACKET {
      LexBracket(p, i);
    } else {
      LexSimple(p, i);
      if s != [] {
        ByteConsumed(Lex(p, i).0, s);
      }
    }
  }

  method SkipRun(p: bytes, start: nat, c: byte) returns (k: nat)
    requires NUL !in p && start <= |p| && c != NUL
    ensures k == RunEnd(p, start, c)
  {
    k := start;
    while At(p, k) == c
      invariant start <= k <= |p|
      invariant RunEnd(p, k, c) == RunEnd(p, start, c)
      decreases |p| - k
    {
      k := k + 1;
    }
  }

  /** What becomes of the matcher's loop at a character that is no wildcard. */
  datatype Outcome = Advanced(k: nat, j: nat) | Returned(r: int) | Stopped

  /** Whether an outcome at `i` of the pattern and `j` of the path agrees with `Walk`. */
  ghost predicate Agrees(p: bytes, i: nat, path: bytes, j: nat, o: Outcome)
    requires i <= |p| && j <= |path|
  {
    match o
    case Advanced(k, m) => i < k <= |p| && j <= m <= |path| && Walk(p, i, path[j..]) == Walk(p, k, path[m..])
    case Returned(r) => Walk(p, i, path[j..]) == r
    case Stopped => Walk(p, i, path[j..]) == if j == |path| then i else NO_MATCH
  }

  method ConsumeBracket(p: bytes, i: nat, path: bytes, j: nat) returns (o: Outcome)
    requires NUL !in p && NUL !in path
    requires i < |p| && j < |path| && p[i] == LBRACKET
    ensures Agrees(p, i, path, j, o)
  {
    var k := i + 1;
    var reverse := false;
    if At(p, k) == BANG { reverse, k := true, k + 1; }
    WalkBracket(p, i, path[j..], k);
    var matched: bool;
    matched, k := ScanBracket(p, k, path[j], reverse);
    if !matched || At(p, k) != RBRACKET { return Returned(i); }
    return Advanced(k + 1, j + 1);
  }

  method ConsumeBraces(p: bytes, i: nat, path: bytes, j: nat) returns (o: Outcome)
    requires NUL !in p && NUL !in path
    requires i < |p| && j <= |path| && p[i] == LBRACE
    ensures Agrees(p, i, path, j, o)
  {
    hide Walk;
    var end := Find(p, i, RBRACE);
    WalkBraces(p, i, path, j, end);
    if end == |p| { return Returned(NO_MATCH); }
    var pick := ScanBraces(p, i, end, path, j);
    match pick
    case None => return Returned(i);
    case Some(a) => return Advanced(end + 1, j + |a|);
  }

  /** One round of the loop for a single character, a bracket or a brace list. */
  method ConsumeToken(p: bytes, i: nat, path: bytes, j: nat) returns (o: Outcome)
    requires NUL !in p && NUL !in path
    requires i < |p| && j <= |path| && p[i] != STAR && !DoubleSlash(p, i)
    ensures Agrees(p, i, path, j, o)
  {
    if p[i] == QUESTION && At(path, j) != NUL {
      WalkQuestion(p, i, path[j..]);
      o := Advanced(i + 1, j + 1);
    } else if p[i] == LBRACKET && At(path, j) != NUL {
      o := ConsumeBracket(p, i, path, j);
    } else if p[i] == LBRACE {
      o := ConsumeBraces(p, i, path, j);
    } else {
      WalkLiteral(p, i, path[j..]);
      o := if p[i] == At(path, j) then Advanced(i + 1, j + 1) else Stopped;
    }
  }

  /**
   The matcher. Its result is the furthest pattern position described by `Walk`, or NO_MATCH for the
   null pointer. The loop strictly advances in the pattern and never passes either terminator.
   */
  method InternalPatternMatch(p: bytes, start: nat, path: bytes, from: nat) returns (r: int)
    requires NUL !in p && NUL !in path
    requires start <= |p| && from <= |path|
    ensures r == Walk(p, start, path[from..])
    ensures r == NO_MATCH || start <= r <= |p|
    decreases |p| - start, |path| - from, 0
  {
    hide Lex, Walk, FurthestInSegment, FurthestAtSlash, RunEnd;
    var i, j := start, from;
    while At(p, i) != NUL
      invariant start <= i <= |p| && from <= j <= |path|
      invariant Walk(p, start, path[from..]) == Walk(p, i, path[j..])
      decreases |p| - i
    {
      if p[i] == STAR {
        var k := SkipRun(p, i, STAR);
        WalkStar(p, i, path[j..]);
        r := MatchAfterStar(p, k, path, j);
        return;
      } else if p[i] == SLASH && At(p, i + 1) == SLASH {
        var k := SkipRun(p, i + 1, SLASH);
        WalkSlashes(p, i, path[j..]);
        r := MatchAfterSlashes(p, k - 1, path, j);
        return;
      }
      var o := ConsumeToken(p, i, path, j);
      match o
      case Advanced(k, j') => i, j := k, j';
      case Returned(q) => return q;
      case Stopped => return if At(path, j) == NUL then i else NO_MATCH;
    }
    WalkEnd(p, path[j..]);
    return if At(path, j) == NUL then i else NO_MATCH;
  }

  lemma SegmentStep(p: bytes, k: nat, path: bytes, j: nat)
    requires k <= |p| && j <= |path|
    ensures FurthestInSegment(p, k, path[j..]) ==
            if j == |path| || path[j] == SLASH then Walk(p, k, path[j..])
            else Max(Walk(p, k, path[j..]), FurthestInSegment(p, k, path[j + 1..]))
  {
    hide Walk, Max;
    if j < |path| {
      assert path[j..][0] == path[j] && path[j..][1..] == path[j + 1..];
    }
  }

  /** The loop over the places where a `*` may stop. */
  method MatchAfterStar(p: bytes, k: nat, path: bytes, from: nat) returns (best: int)
    requires NUL !in p && NUL !in path
    requires k <= |p| && from <= |path|
    ensures best == FurthestInSegment(p, k, path[from..])
    decreases |p| - k, |path| - from, 1
  {
    hide Walk, FurthestInSegment;
    best := NO_MATCH;
    var j := from;
    while true
      invariant from <= j <= |path| && best >= NO_MATCH
      invariant FurthestInSegment(p, k, path[from..]) == Max(best, FurthestInSegment(p, k, path[j..]))
      decreases |path| - j
    {
      SegmentStep(p, k, path, j);
      var ret := InternalPatternMatch(p, k, path, j);
      if ret != NO_MATCH && ret > best { best := ret; }
      if At(path, j) == NUL || At(path, j) == SLASH { break; }
      j := j + 1;
    }
  }

  lemma SlashStep(p: bytes, k: nat, path: bytes, j: nat, e: nat)
    requires k <= |p| && j < |path| && e == Find(path, j + 1, SLASH)
    ensures FurthestAtSlash(p, k, path[j..]) ==
            if e == |path| then Walk(p, k, path[j..])
            else Max(Walk(p, k, path[j..]), FurthestAtSlash(p, k, path[e..]))
  {
    hide Walk, FurthestAtSlash;
    FindInTail(path, j, 1, SLASH);
    FurthestUnfolds(p, k, path[j..], e - j);
    assert path[j..][e - j..] == path[e..];
  }

  lemma FurthestUnfolds(p: bytes, k: nat, s: bytes, e: nat)
    requires k <= |p| && s != [] && e == Find(s, 1, SLASH)
    ensures FurthestAtSlash(p, k, s) ==
            if e == |s| then Walk(p, k, s) else Max(Walk(p, k, s), FurthestAtSlash(p, k, s[e..]))
  {
  }

  /** The loop over the current place and the later slashes of the path. */
  method MatchAfterSlashes(p: bytes, k: nat, path: bytes, from: nat) returns (best: int)
    requires NUL !in p && NUL !in path
    requires k <= |p| && from <= |path|
    ensures best == FurthestAtSlash(p, k, path[from..])
    decreases |p| - k, |path| - from, 1
  {
    hide Walk;
    best := NO_MATCH;
    var j := from;
    while true
      invariant from <= j <= |path| && best >= NO_MATCH
      invariant FurthestAtSlash(p, k, path[from..]) == Max(best, FurthestAtSlash(p, k, path[j..]))
      decreases |path| - j
    {
      var ret := InternalPatternMatch(p, k, path, j);
      if ret != NO_MATCH && ret > best { best := ret; }
      if At(path, j) == NUL { break; }
      var e := Find(path, j + 1, SLASH);
      SlashStep(p, k, path, j, e);
      if e == |path| { break; }
      j := e;
    }
  }

  lemma FindInTail(d: bytes, j: nat, from: nat, c: byte)
    requires j + from <= |d|
    ensures Find(d[j..], from, c) == Find(d, j + from, c) - j
  {
    FindAt(d[j..], from, c, Find(d, j + from, c) - j);
  }

  /** `fullPatternMatch`: true exactly for the derivations in which braces commit to their first fit. */
  method FullPatternMatch(pattern: bytes, test: bytes) returns (r: bool)
    ensures r == FullMatch(pattern, test)
    ensures r <==> Derives(true, Tokens(CStr(pattern), 0), CStr(test))
  {
    var p, s := CStr(pattern), CStr(test);
    var q := InternalPatternMatch(p, 0, s, 0);
    assert s[0..] == s;
    FullMatchCommits(pattern, test);
    return q != NO_MATCH && At(p, q) == NUL;
  }

  method PartialPatternMatch(pattern: bytes, test: bytes) returns (r: bool)
    ensures r == PartialMatch(pattern, test)
  {
    var s := CStr(test);
    var q := InternalPatternMatch(CStr(pattern), 0, s, 0);
    assert s[0..] == s;
    return q != NO_MATCH;
  }
}
