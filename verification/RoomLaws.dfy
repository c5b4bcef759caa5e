/**
 Exactly which patterns keep to the documented meaning of a partial match, where neither double slashes nor
 an open brace after a star stand in the way of an answer.
 */
module RoomLaws {
  import opened Bytes
  import opened PatternSpec
  import opened PatternLaws
  import opened BraceLaws
  import opened ParentPath
  import opened PartialLaws
  import opened BeginningLaws

  // ----- patterns that are not roomy

  /** A token that is in the way of a path: none of its beginnings match, and yet the matcher gives a position. */
  predicate Bars(t: Token, s: bytes) {
    match t
    case Class(_, _) => s != [] && !Consumes(t, s[..1])
    case OneOf(alts) => s != [] && Choice(alts, s).None?
    case OpenBracket => s != []
    case _ => false
  }

  lemma BarsMeans(t: Token, s: bytes)
    requires Bars(t, s)
    ensures s != [] && (t.Class? || t.OneOf? || t.OpenBracket?)
    ensures t.Class? ==> !Consumes(t, s[..1])
    ensures t.OneOf? ==> Choice(t.alts, s).None?
  {
    hide Consumes, Choice;
  }

  lemma CutKinds(kept: (Token, nat), whole: (Token, nat), k: nat)
    requires Cut(kept, whole, k) && kept != whole && !whole.0.Star? && !whole.0.Gap?
    ensures kept.0.OpenBracket? || kept.0.OpenBrace?
  {
  }

  lemma BarredNever(p: bytes, i: nat, s: bytes)
    requires i < |p| && Bars(Lex(p, i).0, s)
    ensures Walk(p, i, s) == i && !BeginsFrom(p, i, s)
  {
    hide *;
    var (t, n) := Lex(p, i);
    BarsMeans(t, s);
    WalkAt(p, i, s);
    if BeginsFrom(p, i, s) {
      var k := BeginsElim(p, i, s);
      if k == i {
        TokensEnd(p[..i]);
        DerivesNothing(s);
      } else {
        LexCut(p, i, k);
        TokensAt(p[..k], i);
        var j := DerivesRest(Lex(p[..k], i).0, Tokens(p[..k], Lex(p[..k], i).1), s);
        Unopened(p, i, k, j, s);
        if Lex(p[..k], i) != Lex(p, i) {
          CutKinds(Lex(p[..k], i), Lex(p, i), k);
        } else if t.Class? {
          OneByte(t, s[..j]);
        }
      }
    }
  }

  /** A token of its own and what it takes. A brace list takes its first alternative. */
  predicate Serves(t: Token, w: bytes) {
    Consumes(t, w) && !t.Star? && !t.Gap? && (t.OneOf? ==> t.alts != [] && w == t.alts[0])
  }

  lemma ServesMeans(t: Token, w: bytes, rest: bytes)
    requires Serves(t, w)
    ensures Consumes(t, w) && !t.Star? && !t.Gap? && !t.OpenBracket? && !t.OpenBrace?
    ensures t.OneOf? ==> Choice(t.alts, w + rest) == Some(w)
    ensures !t.OneOf? ==> |w| == 1
    ensures (w + rest)[..|w|] == w && (w + rest)[|w|..] == rest
  {
    assert w <= w + rest;
  }

  /** What a token takes does not matter for the rest of the pattern and of the path. */
  lemma ServedFirst(p: bytes, i: nat, w: bytes, rest: bytes)
    requires i < |p| && Serves(Lex(p, i).0, w)
    ensures Walk(p, i, w + rest) == Walk(p, Lex(p, i).1, rest)
    ensures BeginsFrom(p, i, w + rest) <==> BeginsFrom(p, Lex(p, i).1, rest)
  {
    hide *;
    var s := w + rest;
    var (t, n) := Lex(p, i);
    ServesMeans(t, w, rest);
    WalkAt(p, i, s);
    if BeginsFrom(p, n, rest) {
      BeginsLift(p, i, s, |w|);
    }
    if BeginsFrom(p, i, s) {
      var k := BeginsElim(p, i, s);
      if k == i {
        TokensEnd(p[..i]);
        DerivesNothing(s);
        BeginsNothing(p, n);
      } else {
        LexCut(p, i, k);
        var (t', n') := Lex(p[..k], i);
        TokensAt(p[..k], i);
        var j := DerivesRest(t', Tokens(p[..k], n'), s);
        Unopened(p, i, k, j, s);
        if (t', n') != (t, n) {
          CutKinds((t', n'), (t, n), k);
        }
        if !t.OneOf? {
          OneByte(t, s[..j]);
        }
        BeginsIntro(p, n, rest, k);
      }
    }
  }

  /** A pattern of characters, `?`, brackets and brace lists only. */
  predicate WithoutRuns(ts: seq<Token>) {
    forall t | t in ts :: !t.Star? && !t.Gap?
  }

  lemma WithoutRunsRest(p: bytes, i: nat)
    requires i < |p| && WithoutRuns(Tokens(p, i))
    ensures !Lex(p, i).0.Star? && !Lex(p, i).0.Gap? && WithoutRuns(Tokens(p, Lex(p, i).1))
  {
    hide Tokens, Lex, Roomy;
    TokensAt(p, i);
    var (t, n) := Lex(p, i);
    assert t in [t] + Tokens(p, n);
    forall u | u in Tokens(p, n) ensures u in [t] + Tokens(p, n) {}
  }

  /** The bytes of a token come from the pattern. */
  lemma LexBytes(p: bytes, i: nat)
    requires i < |p| && NUL !in p
    ensures var t := Lex(p, i).0;
            && (t.Lit? ==> t.c != NUL)
            && (t.OneOf? ==> t.alts != [] && forall a | a in t.alts :: NUL !in a && RBRACE !in a)
  {
    if p[i] == LBRACE {
      LexBrace(p, i);
      var e := Find(p, i, RBRACE);
      if e < |p| {
        var list := p[i + 1..e];
        forall a | a in Split(list) ensures NUL !in a && RBRACE !in a {
          if NUL in a {
            SplitStaysInside(list, a, NUL);
          }
          if RBRACE in a {
            SplitStaysInside(list, a, RBRACE);
          }
        }
      }
    }
  }

  /** A path that a token takes, if it is roomy. */
  lemma RoomyServes(t: Token) returns (w: bytes)
    requires Roomy(t) && !t.Star? && !t.Gap? && (t.Lit? ==> t.c != NUL)
    requires t.OneOf? ==> t.alts != [] && forall a | a in t.alts :: NUL !in a
    ensures Serves(t, w) && NUL !in w
  {
    hide InRanges;
    w := if t.Lit? then [t.c] else if t.OneOf? then t.alts[0] else [1];
    assert t.Class? ==> InRanges(w[0], t.ranges) != t.negated;
  }

  /** Bytes after which a token bars the path whatever follows, if it is not roomy. */
  lemma RoomlessBars(t: Token, tail: bytes) returns (s: bytes)
    requires !Roomy(t) && !t.OpenBrace?
    requires t.OneOf? ==> forall a | a in t.alts :: RBRACE !in a
    ensures Bars(t, s + tail) && NUL !in s
  {
    hide InRanges;
    if t.Class? {
      var c: byte :| c != NUL && InRanges(c, t.ranges) == t.negated;
      s := [c];
      assert (s + tail)[..1] == [c];
    } else {
      s := [RBRACE];
      assert t.OneOf? ==> forall a | a in t.alts :: |a| > 0 && a[0] in a && a[0] != (s + tail)[0];
    }
  }

  // ----- a bracket or brace list in the way

  /** A token that can turn a path away in the middle. */
  ghost predicate Roomless(t: Token) {
    !Roomy(t) && !t.OpenBrace?
  }

  ghost predicate SomeRoomless(ts: seq<Token>) {
    exists t | t in ts :: Roomless(t)
  }

  lemma RoomlessRest(p: bytes, i: nat)
    requires i < |p|
    ensures var (t, n) := Lex(p, i);
            && (SomeRoomless(Tokens(p, i)) <==> Roomless(t) || SomeRoomless(Tokens(p, n)))
            && (Gap in Tokens(p, i) <==> t.Gap? || Gap in Tokens(p, n))
            && (t.OpenBrace? ==> !SomeRoomless(Tokens(p, n)))
  {
    TokensAt(p, i);
    TokensEnd(p);
    OpenBraceIsLast(p, i);
    hide Tokens, Lex, Roomy;
    var (t, n) := Lex(p, i);
    assert t in [t] + Tokens(p, n);
    forall u | u in Tokens(p, n) ensures u in [t] + Tokens(p, n) {}
  }

  lemma OpenBraceIsLast(p: bytes, i: nat)
    requires i < |p|
    ensures Lex(p, i).0.OpenBrace? ==> Lex(p, i).1 == |p|
  {
  }

  lemma RoomlessIs(t: Token)
    ensures Roomless(t) <==> !Roomy(t) && !t.OpenBrace?
  {
    hide Roomy;
  }

  lemma NoneRoomless(p: bytes)
    ensures !SomeRoomless(Tokens(p, |p|))
  {
  }

  /**
   A path that ends as given and that the matcher follows to the first token in its way. Every star on the
   way takes nothing.
   */
  lemma {:induction false} BarredPath(p: bytes, i: nat, tail: bytes) returns (s: bytes)
    requires i <= |p| && NUL !in p && Gap !in Tokens(p, i) && SomeRoomless(Tokens(p, i))
    ensures NUL !in s && Walk(p, i, s + tail) != NO_MATCH
    decreases |p| - i
  {
    hide *;
    if i == |p| {
      NoneRoomless(p);
    }
    RoomlessRest(p, i);
    LexBytes(p, i);
    var (t, n) := Lex(p, i);
    RoomlessIs(t);
    if Roomless(t) {
      s := RoomlessBars(t, tail);
      BarredNever(p, i, s + tail);
      NoMatchIs();
    } else {
      var rest := BarredPath(p, n, tail);
      if t.Star? {
        s := rest;
        WalkAt(p, i, s + tail);
        assert (s + tail)[0..] == s + tail && SLASH !in (s + tail)[..0];
        SegmentKeeps(p, n, s + tail, 0);
      } else {
        var w := RoomyServes(t);
        s := w + rest;
        assert s + tail == w + (rest + tail);
        ServedFirst(p, i, w, rest + tail);
      }
    }
  }

  // ----- how many slashes a beginning can take

  function Slashes(s: bytes): nat {
    if s == [] then 0 else (if s[0] == SLASH then 1 else 0) + Slashes(s[1..])
  }

  lemma {:induction false} SlashesConcat(a: bytes, b: bytes)
    ensures Slashes(a + b) == Slashes(a) + Slashes(b)
    decreases |a|
  {
    if a == [] {
      assert a + b == b;
    } else {
      assert (a + b)[1..] == a[1..] + b;
      SlashesConcat(a[1..], b);
    }
  }

  lemma {:induction false} SlashesBound(s: bytes)
    ensures Slashes(s) <= |s| && (SLASH !in s ==> Slashes(s) == 0)
  {
    if s != [] {
      SlashesBound(s[1..]);
    }
  }

  lemma {:induction false} ManySlashes(n: nat) returns (s: bytes)
    ensures |s| == n && Slashes(s) == n && NUL !in s
  {
    if n == 0 {
      s := [];
    } else {
      var rest := ManySlashes(n - 1);
      s := [SLASH] + rest;
    }
  }

  lemma {:induction false} SplitIsShort(list: bytes, a: bytes)
    requires a in Split(list)
    ensures |a| <= |list|
    decreases |list|
  {
    var k := Find(list, 0, COMMA);
    if k < |list| && a != list[..k] {
      SplitIsShort(list[k + 1..], a);
    }
  }

  lemma AlternativesAreShort(p: bytes, i: nat)
    requires i < |p| && Lex(p, i).0.OneOf?
    ensures forall a | a in Lex(p, i).0.alts :: |a| <= Lex(p, i).1 - i
  {
    if p[i] == LBRACE {
      LexBrace(p, i);
      var e := Find(p, i, RBRACE);
      if e < |p| {
        forall a | a in Split(p[i + 1..e]) ensures |a| <= e - i {
          SplitIsShort(p[i + 1..e], a);
        }
      }
    }
  }

  /** A token takes no more slashes than it has characters. */
  lemma TokenSlashes(p: bytes, i: nat, w: bytes)
    requires i < |p| && Consumes(Lex(p, i).0, w) && !Lex(p, i).0.Gap?
    ensures Slashes(w) <= Lex(p, i).1 - i
  {
    var (t, n) := Lex(p, i);
    SlashesBound(w);
    AnyStretch(t, w);
    if t.OneOf? {
      AlternativesAreShort(p, i);
    }
    hide Lex, Slashes, Split;
    if t.Lit? || t.AnyChar? || t.Class? {
      OneByte(t, w);
    }
  }

  /** Without gaps, a beginning takes no more slashes than it has characters. */
  lemma {:induction false} BeginningSlashes(p: bytes, i: nat, k: nat, s: bytes)
    requires i <= k <= |p| && Gap !in Tokens(p, i) && Derives(true, Tokens(p[..k], i), s)
    ensures Slashes(s) <= k - i
    decreases k - i
  {
    hide *;
    var q := p[..k];
    if i == k {
      TokensEnd(q);
      DerivesNothing(s);
      SlashesBound(s);
    } else {
      var (t, n) := Lex(q, i);
      TokensAt(q, i);
      var j := DerivesRest(t, Tokens(q, n), s);
      Unopened(p, i, k, j, s);
      LexCut(p, i, k);
      RoomlessRest(p, i);
      assert s == s[..j] + s[j..];
      SlashesConcat(s[..j], s[j..]);
      if (t, n) == Lex(p, i) {
        BeginningSlashes(p, n, k, s[j..]);
        TokenSlashes(p, i, s[..j]);
      } else {
        CutMeans((t, n), Lex(p, i), k);
        TokensEnd(q);
        DerivesNothing(s[j..]);
        AnyStretch(t, s[..j]);
        SlashesBound(s[..j]);
        SlashesBound(s[j..]);
      }
    }
  }

  // ----- an open brace in the way

  lemma OpenBraceRest(p: bytes, i: nat)
    requires i < |p| && OpenBrace in Tokens(p, i)
    ensures !Lex(p, i).0.OpenBrace? ==> OpenBrace in Tokens(p, Lex(p, i).1)
  {
    TokensAt(p, i);
    hide Tokens, Lex;
  }

  /** A path that all but an open brace takes, when there is no run of stars or slashes: a match of a beginning only. */
  lemma {:induction false} OpenBraceFails(p: bytes, i: nat) returns (s: bytes)
    requires i <= |p| && NUL !in p && WithoutRuns(Tokens(p, i))
    requires OpenBrace in Tokens(p, i) && !SomeRoomless(Tokens(p, i))
    ensures NUL !in s && Walk(p, i, s) == NO_MATCH && BeginsFrom(p, i, s)
    decreases |p| - i
  {
    hide *;
    if i == |p| {
      TokensEnd(p);
    }
    WithoutRunsRest(p, i);
    RoomlessRest(p, i);
    OpenBraceRest(p, i);
    LexBytes(p, i);
    var (t, n) := Lex(p, i);
    RoomlessIs(t);
    if t.OpenBrace? {
      s := [];
      WalkAt(p, i, s);
      BeginsNothing(p, i);
    } else {
      var w := RoomyServes(t);
      var rest := OpenBraceFails(p, n);
      s := w + rest;
      ServedFirst(p, i, w, rest);
    }
  }

  // ----- exactly

  /**
   No double slash; and where a brace is left open, either no star or a bracket or brace list that is not
   roomy.
   */
  ghost predicate Answerable(ts: seq<Token>) {
    Gap !in ts && (OpenBrace in ts && Star in ts ==> SomeRoomless(ts))
  }

  lemma RoomyCases(ts: seq<Token>)
    ensures AllRoomy(ts) <==> !SomeRoomless(ts) && OpenBrace !in ts
    ensures Answerable(ts) && !AllRoomy(ts) && !SomeRoomless(ts) ==> WithoutRuns(ts)
  {
    assert forall t | t in ts :: Roomy(t) || Roomless(t) || t == OpenBrace;
    assert !Roomy(OpenBrace);
  }

  lemma AnswerableMeans(ts: seq<Token>)
    requires Answerable(ts)
    ensures Gap !in ts
  {
  }

  /** A path on which matcher and documentation differ. */
  lemma RoomlessFails(p: bytes) returns (s: bytes)
    requires NUL !in p && Answerable(Tokens(p, 0)) && !AllRoomy(Tokens(p, 0))
    ensures NUL !in s && !(Walk(p, 0, s) != NO_MATCH <==> BeginsFrom(p, 0, s))
  {
    hide *;
    RoomyCases(Tokens(p, 0));
    AnswerableMeans(Tokens(p, 0));
    if SomeRoomless(Tokens(p, 0)) {
      var tail := ManySlashes(|p| + 1);
      var start := BarredPath(p, 0, tail);
      s := start + tail;
      SlashesConcat(start, tail);
      if BeginsFrom(p, 0, s) {
        var k := BeginsElim(p, 0, s);
        BeginningSlashes(p, 0, k, s);
      }
    } else {
      s := OpenBraceFails(p, 0);
    }
  }

  /**
   For patterns without double slashes, exactly: a partial match is what the documentation says, for all
   paths, if and only if every bracket takes all characters, every brace list has an empty alternative, and
   none is left open. Only a pattern with a star in which an open brace is all that is not roomy is left out.
   */
  lemma DocumentedIffRoomy(pattern: bytes)
    requires Answerable(Tokens(CStr(pattern), 0))
    ensures Documented(pattern) <==> AllRoomy(Tokens(CStr(pattern), 0))
  {
    if AllRoomy(Tokens(CStr(pattern), 0)) {
      forall path: bytes ensures PartialMatch(pattern, path) <==> Beginning(pattern, path) {
        PartialMatchBegins(pattern, path);
      }
    } else {
      hide *;
      var s := RoomlessFails(CStr(pattern));
      CStrSame(s);
      BeginningIs(pattern, s);
      PartialIs(pattern, s);
      NotDocumented(pattern, s);
    }
  }

  lemma NotDocumented(pattern: bytes, path: bytes)
    requires !(PartialMatch(pattern, path) <==> Beginning(pattern, path))
    ensures !Documented(pattern)
  {
    hide PartialMatch, Beginning;
  }

  // ----- instances

  /** One brace list: it has the documented meaning if and only if it has an empty alternative. */
  lemma BraceDocumentedIffEmpty(list: bytes)
    requires RBRACE !in list && NUL !in list
    ensures Documented(Braced(list, 0)) <==> [] in Split(list)
  {
    var p := Braced(list, 0);
    BracedCStr(list, 0);
    BracedTokens(list, 0);
    TokensEnd(p);
    assert Tokens(p, 0) == [OneOf(Split(list))];
    DocumentedIffRoomy(p);
    hide Tokens, Documented, Split;
    assert OneOf(Split(list)) in Tokens(p, 0);
  }

  /** A bracket that does not: `[a]` partially matches every path that starts with another character. */
  lemma BracketMismatchIsPartial(path: bytes)
    requires path != [] && NUL !in path && path[0] != 97
    ensures PartialMatch([LBRACKET, 97, RBRACKET], path) && !Beginning([LBRACKET, 97, RBRACKET], path)
  {
    var p: bytes := [LBRACKET, 97, RBRACKET];
    OneLetterClass(path);
    BarredNever(p, 0, path);
    CStrSame(p);
    CStrSame(path);
    hide *;
    BeginningIs(p, path);
    PartialIs(p, path);
    NoMatchIs();
  }

  lemma OneLetterClass(path: bytes)
    requires path != [] && path[0] != 97
    ensures Bars(Lex([LBRACKET, 97, RBRACKET], 0).0, path)
  {
    var p: bytes := [LBRACKET, 97, RBRACKET];
    var ranges: seq<(byte, byte)> := [(97, 97)];
    assert ReadRanges(p, 2).0 == [] && ReadRanges(p, 2).1 == 2;
    assert ReadRanges(p, 1).0 == ranges + [] == ranges && ReadRanges(p, 1).1 == 2;
    assert Lex(p, 0) == (Class(false, ranges), 3);
    assert Rank(97) <= Rank(path[0]) <= Rank(97) <==> path[0] == 97;
    assert path[..1][0] == path[0];
  }

  /** An unclosed brace that does not: the beginning of `a{` matches the path `a`, and yet this is no partial match. */
  lemma UnclosedBraceIsNotPartial()
    ensures Beginning([97, LBRACE], [97]) && !PartialMatch([97, LBRACE], [97])
  {
    var p, path: bytes := [97, LBRACE], [97];
    assert Lex(p, 0) == (Lit(97), 1) && Lex(p, 1) == (OpenBrace, 2);
    assert path[..1] == [97] && path[1..] == [];
    CStrSame(p);
    CStrSame(path);
    hide *;
    LitConsumes(97);
    WalkAt(p, 0, path);
    WalkAt(p, 1, []);
    BeginsNothing(p, 1);
    BeginsLift(p, 0, path, 1);
    BeginningIs(p, path);
    PartialIs(p, path);
  }

  /**
   With wildcards a pattern need not be roomy to have the documented meaning: after a double slash and a star
   anything does, unless a brace is left open.
   */
  lemma WildcardsMakeRoom(rest: bytes, path: bytes)
    requires NUL !in rest
    requires OpenBrace !in Tokens([SLASH, SLASH, STAR] + rest, 0)
    ensures var p := [SLASH, SLASH, STAR] + rest; PartialMatch(p, path) <==> Beginning(p, path)
  {
    var p := [SLASH, SLASH, STAR] + rest;
    CStrSame(p);
    AnyDirectory(rest);
    hide *;
    if PartialMatch(p, path) {
      PartialIs(p, path);
      BeginningIs(p, path);
      if CStr(path) == [] {
        BeginsNothing(p, 0);
      } else {
        SlashNeeded(p, CStr(path));
        DirectoryBegins(p, CStr(path));
      }
    }
    if Beginning(p, path) {
      BeginningIsPartial(p, path);
    }
  }

  predicate StartsWithDirectory(p: bytes) {
    |p| >= 3 && Lex(p, 0) == (Gap, 1) && Lex(p, 1) == (Lit(SLASH), 2) && Lex(p, 2).0 == Star
  }

  lemma StartIs(p: bytes)
    requires StartsWithDirectory(p)
    ensures |p| >= 3 && Lex(p, 0) == (Gap, 1) && Lex(p, 1) == (Lit(SLASH), 2) && Lex(p, 2).0 == Star
  {
    hide Lex;
  }

  lemma SlashNeeded(p: bytes, s: bytes)
    requires StartsWithDirectory(p) && s != [] && Walk(p, 0, s) != NO_MATCH
    ensures SLASH in s
  {
    hide *;
    StartIs(p);
    WalkAt(p, 0, s);
    var j := SlashFinds(p, 1, s);
    WalkAt(p, 1, s[j..]);
    SlashConsumed(s[j..]);
    assert s[j..] != [] ==> s[j] == s[j..][0];
  }

  lemma DirectoryBegins(p: bytes, s: bytes)
    requires StartsWithDirectory(p) && SLASH in s
    ensures BeginsFrom(p, 0, s)
  {
    hide *;
    StartIs(p);
    var e := LastSlash(s);
    var slash, name := s[e..], s[e + 1..];
    assert slash == [SLASH] + name;
    AnyStretch(Gap, s[..e]);
    LitConsumes(SLASH);
    AnyStretch(Star, name);
    BeginsNothing(p, Lex(p, 2).1);
    assert name[..|name|] == name && name[|name|..] == [];
    BeginsLift(p, 2, name, |name|);
    assert slash[..1] == [SLASH] && slash[1..] == name;
    BeginsLift(p, 1, slash, 1);
    BeginsLift(p, 0, s, e);
  }

  lemma AnyDirectory(rest: bytes)
    ensures StartsWithDirectory([SLASH, SLASH, STAR] + rest)
  {
    var p := [SLASH, SLASH, STAR] + rest;
    assert RunEnd(p, 2, SLASH) == 2 && RunEnd(p, 1, SLASH) == 2;
  }

  lemma SlashConsumed(s: bytes)
    ensures s != [] && Consumes(Lit(SLASH), s[..1]) ==> s[0] == SLASH
  {
  }

  lemma {:induction false} LastSlash(s: bytes) returns (e: nat)
    requires SLASH in s
    ensures e < |s| && s[e] == SLASH && SLASH !in s[e + 1..]
    decreases |s|
  {
    var n := |s| - 1;
    if s[n] == SLASH {
      e := n;
    } else {
      assert s == s[..n] + [s[n]];
      e := LastSlash(s[..n]);
      assert s[e + 1..] == s[..n][e + 1..] + [s[n]];
    }
  }

  /**
   Neither need a pattern with a star be roomy where a brace is left open: `*a{` has the documented meaning,
   for both say that the path has no slash.
   */
  lemma StarBeforeOpenBrace(path: bytes)
    ensures PartialMatch([STAR, 97, LBRACE], path) <==> SLASH !in CStr(path)
    ensures Beginning([STAR, 97, LBRACE], path) <==> SLASH !in CStr(path)
  {
    var p: bytes := [STAR, 97, LBRACE];
    CStrSame(p);
    hide *;
    PartialIs(p, path);
    BeginningIs(p, path);
    StarOpenTokens();
    StarOpenWalk(CStr(path));
    StarOpenBegins(CStr(path));
  }

  lemma StarOpenTokens()
    ensures var p: bytes := [STAR, 97, LBRACE];
            Lex(p, 0) == (Star, 1) && Lex(p, 1) == (Lit(97), 2) && Lex(p, 2) == (OpenBrace, 3)
    ensures Gap !in Tokens([STAR, 97, LBRACE], 0)
  {
    var p: bytes := [STAR, 97, LBRACE];
    assert RunEnd(p, 1, STAR) == 1;
    assert Find(p, 2, RBRACE) == 3;
    assert Tokens(p, 3) == [] && Tokens(p, 2) == [OpenBrace] && Tokens(p, 1) == [Lit(97), OpenBrace];
  }

  lemma StarOpenWalk(s: bytes)
    ensures Walk([STAR, 97, LBRACE], 0, s) != NO_MATCH <==> SLASH !in s
  {
    hide *;
    var p: bytes := [STAR, 97, LBRACE];
    StarOpenTokens();
    NoMatchIs();
    WalkAt(p, 0, s);
    assert s[..|s|] == s && s[|s|..] == [];
    WalkAt(p, 1, []);
    if SLASH !in s {
      SegmentKeeps(p, 1, s, |s|);
    }
    if Walk(p, 0, s) != NO_MATCH {
      var j := SegmentFinds(p, 1, s);
      WalkAt(p, 1, s[j..]);
      if s[j..] != [] {
        WalkAt(p, 2, s[j..][1..]);
      }
      assert s == s[..j] + s[j..];
    }
  }

  lemma StarOpenBegins(s: bytes)
    ensures BeginsFrom([STAR, 97, LBRACE], 0, s) <==> SLASH !in s
  {
    hide *;
    var p: bytes := [STAR, 97, LBRACE];
    StarOpenTokens();
    assert s[..|s|] == s && s[|s|..] == [];
    AnyStretch(Star, s);
    BeginsNothing(p, 1);
    if SLASH !in s {
      BeginsLift(p, 0, s, |s|);
    }
    if BeginsFrom(p, 0, s) {
      var k := BeginsElim(p, 0, s);
      StarOpenDerives(k, s);
    }
  }

  lemma LetterIsNoSlash()
    ensures SLASH != 97
  {
  }

  lemma StarOpenDerives(k: nat, s: bytes)
    requires k <= 3 && Derives(true, Tokens([STAR, 97, LBRACE][..k], 0), s)
    ensures SLASH !in s
  {
    hide *;
    var p: bytes := [STAR, 97, LBRACE];
    var q := p[..k];
    TokensEnd(q);
    if k == 0 {
      DerivesNothing(s);
    } else {
      StarOpenTokens();
      LexKept(p, 0, k);
      TokensAt(q, 0);
      var j := DerivesRest(Star, Tokens(q, 1), s);
      AnyStretch(Star, s[..j]);
      var rest := s[j..];
      assert s == s[..j] + rest;
      if k == 1 {
        DerivesNothing(rest);
      } else {
        LexKept(p, 1, k);
        TokensAt(q, 1);
        var m := DerivesRest(Lit(97), Tokens(q, 2), rest);
        OneByte(Lit(97), rest[..m]);
        assert rest == rest[..m] + rest[m..];
        if k == 2 {
          DerivesNothing(rest[m..]);
          LetterIsNoSlash();
        } else {
          LexKept(p, 2, k);
          TokensAt(q, 2);
          var l := DerivesRest(OpenBrace, Tokens(q, 3), rest[m..]);
          Unopened(p, 2, k, l, rest[m..]);
        }
      }
    }
  }
}
