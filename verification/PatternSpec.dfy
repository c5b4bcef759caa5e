/**
 OSC address patterns: how a pattern is read as a sequence of tokens, which paths a token sequence
 matches, and the position that the backtracking matcher returns.
 */
module PatternSpec {
  import opened Bytes

  const SLASH: byte := 47      // '/'
  const STAR: byte := 42       // '*'
  const QUESTION: byte := 63   // '?'
  const BANG: byte := 33       // '!'
  const DASH: byte := 45       // '-'
  const COMMA: byte := 44      // ','
  const LBRACKET: byte := 91   // '['
  const RBRACKET: byte := 93   // ']'
  const LBRACE: byte := 123    // '{'
  const RBRACE: byte := 125    // '}'

  /** Whether the platform's plain `char` is signed. It has no value here: what is proved holds for both. */
  const CHAR_IS_SIGNED: bool

  /** The integer a `char` is compared as. */
  function Rank(c: byte): int {
    if CHAR_IS_SIGNED && c >= 128 then c - 256 else c
  }

  datatype Token =
    | Lit(c: byte)
    | AnyChar                                              // ?
    | Class(negated: bool, ranges: seq<(byte, byte)>)      // [...]
    | Star                                                 // * or a run of them
    | Gap                                                  // all but the last slash of a run of slashes
    | OneOf(alts: seq<bytes>)                              // {...,...}
    | OpenBracket                                          // a bracket that is never closed
    | OpenBrace                                            // a brace that is never closed

  predicate InRanges(c: byte, ranges: seq<(byte, byte)>) {
    exists r | r in ranges :: Rank(r.0) <= Rank(c) <= Rank(r.1)
  }

  /** The stretches of path that a token stands for. */
  predicate Consumes(t: Token, w: bytes) {
    match t
    case Lit(c) => w == [c]
    case AnyChar => |w| == 1
    case Class(negated, ranges) => |w| == 1 && InRanges(w[0], ranges) != negated
    case Star => SLASH !in w
    case Gap => true
    case OneOf(alts) => w in alts
    case OpenBracket => false
    case OpenBrace => false
  }

  /** The first alternative that the path starts with. */
  function Choice(alts: seq<bytes>, s: bytes): (r: Option<bytes>)
    ensures r.Some? ==> r.value in alts && r.value <= s
    ensures r.None? ==> forall a | a in alts :: !(a <= s)
  {
    if alts == [] then None
    else if alts[0] <= s then Some(alts[0])
    else
      assert alts == [alts[0]] + alts[1..];
      Choice(alts[1..], s)
  }

  /**
   The path is a concatenation of one stretch per token. With `commit`, a brace list may only stand
   for the first of its alternatives that fits.
   */
  ghost predicate Derives(commit: bool, ts: seq<Token>, s: bytes)
    decreases |ts|
  {
    if ts == [] then s == []
    else exists k | 0 <= k <= |s| :: Splits(commit, ts, s, k)
  }

  ghost predicate Splits(commit: bool, ts: seq<Token>, s: bytes, k: nat)
    requires ts != [] && k <= |s|
    decreases |ts|, 0
  {
    && Consumes(ts[0], s[..k])
    && (commit && ts[0].OneOf? ==> Choice(ts[0].alts, s) == Some(s[..k]))
    && Derives(commit, ts[1..], s[k..])
  }

  /** The matching relation: a brace list stands for any of its alternatives. */
  ghost predicate Matches(ts: seq<Token>, s: bytes) {
    Derives(false, ts, s)
  }

  // ----- reading a pattern

  /** The end of the run of `c` that goes on at `i`. */
  function RunEnd(p: bytes, i: nat, c: byte): (r: nat)
    requires i <= |p|
    ensures i <= r <= |p|
    ensures forall k | i <= k < r :: p[k] == c
    ensures r < |p| ==> p[r] != c
    decreases |p| - i
  {
    if i == |p| || p[i] != c then i else RunEnd(p, i + 1, c)
  }

  /** The ranges of a bracket from `k` up to its closing `]`, and the index of that `]` (or the pattern's end). */
  function ReadRanges(p: bytes, k: nat): (r: (seq<(byte, byte)>, nat))
    requires k <= |p|
    ensures k <= r.1 <= |p|
    ensures r.1 < |p| ==> p[r.1] == RBRACKET
    decreases |p| - k
  {
    if k == |p| || p[k] == RBRACKET then ([], k)
    else if k + 2 < |p| && p[k + 1] == DASH then
      var rest := ReadRanges(p, k + 3);
      ([(p[k], p[k + 2])] + rest.0, rest.1)
    else
      var rest := ReadRanges(p, k + 1);
      ([(p[k], p[k])] + rest.0, rest.1)
  }

  /** The comma-separated alternatives of a brace list. */
  function Split(list: bytes): (r: seq<bytes>)
    ensures r != []
    decreases |list|
  {
    var k := Find(list, 0, COMMA);
    if k == |list| then [list] else [list[..k]] + Split(list[k + 1..])
  }

  predicate DoubleSlash(p: bytes, i: nat)
    requires i < |p|
  {
    p[i] == SLASH && i + 1 < |p| && p[i + 1] == SLASH
  }

  predicate Negated(p: bytes, i: nat)
    requires i < |p|
  {
    i + 1 < |p| && p[i + 1] == BANG
  }

  /** The token at `i` and where the next one starts. */
  function Lex(p: bytes, i: nat): (r: (Token, nat))
    requires i < |p|
    ensures i < r.1 <= |p|
    ensures r.0.Gap? ==> r.1 < |p| && p[r.1] == SLASH && !DoubleSlash(p, r.1)
  {
    var c := p[i];
    if c == QUESTION then (AnyChar, i + 1)
    else if c == LBRACKET then
      var (ranges, e) := ReadRanges(p, if Negated(p, i) then i + 2 else i + 1);
      if e == |p| then (OpenBracket, |p|) else (Class(Negated(p, i), ranges), e + 1)
    else if c == STAR then (Star, RunEnd(p, i + 1, STAR))
    else if DoubleSlash(p, i) then (Gap, RunEnd(p, i + 1, SLASH) - 1)
    else if c == LBRACE then
      var e := Find(p, i, RBRACE);
      if e == |p| then (OpenBrace, |p|) else (OneOf(Split(p[i + 1..e])), e + 1)
    else (Lit(c), i + 1)
  }

  function Tokens(p: bytes, i: nat): seq<Token>
    requires i <= |p|
    decreases |p| - i
  {
    if i == |p| then [] else var (t, n) := Lex(p, i); [t] + Tokens(p, n)
  }

  // ----- the position the matcher returns, NO_MATCH standing for the null pointer

  const NO_MATCH: int := -1

  function Max(a: int, b: int): int {
    if a >= b then a else b
  }

  /** The position in `p`, from `i` on, that the matcher returns for the path `s`. */
  function Walk(p: bytes, i: nat, s: bytes): (r: int)
    requires i <= |p|
    ensures r == NO_MATCH || i <= r <= |p|
    decreases |p| - i, |s|, 0
  {
    if i == |p| then (if s == [] then i else NO_MATCH)
    else
      var (t, n) := Lex(p, i);
      match t
      case Star => FurthestInSegment(p, n, s)
      case Gap => FurthestAtSlash(p, n, s)
      case OneOf(alts) =>
        (match Choice(alts, s)
         case None => i
         case Some(a) => Walk(p, n, s[|a|..]))
      case OpenBrace => NO_MATCH
      case OpenBracket => i
      case _ =>
        if s == [] then i
        else if Consumes(t, s[..1]) then Walk(p, n, s[1..])
        else if t.Class? then i
        else NO_MATCH
  }

  /** The furthest position over all places where a `*` may stop: up to the next slash or the path's end. */
  function FurthestInSegment(p: bytes, n: nat, s: bytes): (r: int)
    requires n <= |p|
    ensures r == NO_MATCH || n <= r <= |p|
    decreases |p| - n, |s|, 1
  {
    var here := Walk(p, n, s);
    if s == [] || s[0] == SLASH then here else Max(here, FurthestInSegment(p, n, s[1..]))
  }

  /** The furthest position over the current place and all later slashes of the path. */
  function FurthestAtSlash(p: bytes, n: nat, s: bytes): (r: int)
    requires n <= |p|
    ensures r == NO_MATCH || n <= r <= |p|
    decreases |p| - n, |s|, 1
  {
    var here := Walk(p, n, s);
    if s == [] then here
    else
      var k := Find(s, 1, SLASH);
      if k == |s| then here else Max(here, FurthestAtSlash(p, n, s[k..]))
  }

  /** The whole pattern matches the whole path. */
  predicate FullMatch(pattern: bytes, path: bytes) {
    Walk(CStr(pattern), 0, CStr(path)) == |CStr(pattern)|
  }

  /** The path matches the beginning of the pattern. */
  predicate PartialMatch(pattern: bytes, path: bytes) {
    Walk(CStr(pattern), 0, CStr(path)) != NO_MATCH
  }
}
