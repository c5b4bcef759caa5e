/**
 The commands for the lamp: their text, and how they are read back from a stream of bytes.
 */
module LampLines {
  import opened Bytes
  import opened MessageFormat

  const COMMAND: byte := 105  // 'i'
  const NEWLINE: byte := 10
  const HEX_F: byte := 102    // 'f'
  const RESET: bytes := [113, 10]  // "q\n", sent when the daemon starts

  type octet = n: int | 0 <= n < 256

  datatype Colour = Colour(r: octet, g: octet, b: octet, lamp: octet)

  /** What an angle can become: a colour value, or a negative number. */
  type shade = n: int | -256 <= n < 255

  /** A lamp's new colour, or a colour without a lamp that stands for an orientation. */
  datatype Command = Paint(c: Colour) | Turn(r: shade, g: shade, b: shade)

  function HexDigit(n: nat): byte
    requires n < 16
  {
    if n < 10 then 48 + n else 87 + n
  }

  function HexDigits(v: nat): bytes {
    if v < 16 then [HexDigit(v)] else HexDigits(v / 16) + [HexDigit(v % 16)]
  }

  /** The conversion `%02x` of an int: as unsigned, at least two lowercase digits. */
  function Hex02(i: int32): bytes {
    var digits := HexDigits(ToBits32(i));
    if |digits| < 2 then [48] + digits else digits
  }

  function ColourLine(c: Colour): bytes {
    [COMMAND] + Hex02(c.r) + Hex02(c.g) + Hex02(c.b) + Hex02(c.lamp) + [NEWLINE]
  }

  function TurnLine(r: shade, g: shade, b: shade): bytes {
    [COMMAND] + Hex02(r) + Hex02(g) + Hex02(b) + [NEWLINE]
  }

  function Text(c: Command): bytes {
    match c
    case Paint(colour) => ColourLine(colour)
    case Turn(r, g, b) => TurnLine(r, g, b)
  }

  function Texts(cs: seq<Command>): bytes {
    if cs == [] then [] else Text(cs[0]) + Texts(cs[1..])
  }

  // ----- reading lines back

  function DigitValue(d: byte): int {
    if 48 <= d <= 57 then d - 48 else if 97 <= d <= 102 then d - 87 else 0
  }

  function OctetAt(line: bytes, i: nat): octet
    requires i + 1 < |line|
  {
    DigitValue(line[i]) * 16 + DigitValue(line[i + 1])
  }

  function DecodeLine(line: bytes): Colour
    requires |line| == 10
  {
    Colour(OctetAt(line, 1), OctetAt(line, 3), OctetAt(line, 5), OctetAt(line, 7))
  }

  /**
   The number whose digits start at `i`, and where they end. A negative one has eight digits, and starts
   with `ff`.
   */
  function ShadeAt(line: bytes, i: nat): (shade, nat) {
    if i + 7 < |line| && line[i] == HEX_F && line[i + 1] == HEX_F then (OctetAt(line, i + 6) - 256, i + 8)
    else if i + 1 < |line| && OctetAt(line, i) < 255 then (OctetAt(line, i), i + 2)
    else (0, i)
  }

  function DecodeTurn(line: bytes): Command {
    var (r, i) := ShadeAt(line, 1);
    var (g, j) := ShadeAt(line, i);
    var (b, k) := ShadeAt(line, j);
    Turn(r, g, b)
  }

  /** A line of ten bytes carries a colour for a lamp, any other an orientation. */
  function DecodeCommand(line: bytes): Command {
    if |line| == 10 then Paint(DecodeLine(line)) else DecodeTurn(line)
  }

  /** The commands in all complete lines of a stream. */
  function DecodeStream(s: bytes): seq<Command>
    decreases |s|
  {
    var e := Find(s, 0, NEWLINE);
    if e == |s| then [] else [DecodeCommand(s[..e + 1])] + DecodeStream(s[e + 1..])
  }

  /** The number of complete lines. */
  function Newlines(s: bytes): nat {
    if s == [] then 0 else (if s[0] == NEWLINE then 1 else 0) + Newlines(s[1..])
  }

  // ----- digits

  predicate IsHex(d: byte) {
    48 <= d <= 57 || 97 <= d <= 102
  }

  lemma {:induction false} AllHex(v: nat)
    ensures forall d | d in HexDigits(v) :: IsHex(d)
  {
    if v >= 16 {
      AllHex(v / 16);
    }
  }

  lemma Hex02IsHex(i: int32)
    ensures forall d | d in Hex02(i) :: IsHex(d)
  {
    AllHex(ToBits32(i));
  }

  lemma OctetReads(v: octet)
    ensures DigitValue(HexDigit(v / 16)) * 16 + DigitValue(HexDigit(v % 16)) == v
    ensures HexDigit(v / 16) == HEX_F && HexDigit(v % 16) == HEX_F ==> v == 255
    ensures IsHex(HexDigit(v / 16)) && IsHex(HexDigit(v % 16))
  {
  }

  lemma Hex02OfOctet(v: octet)
    ensures Hex02(v) == [HexDigit(v / 16), HexDigit(v % 16)]
  {
    if v >= 16 {
      assert HexDigits(v / 16) == [HexDigit(v / 16)];
    }
  }

  lemma TwoMoreDigits(v: nat)
    requires v >= 256
    ensures HexDigits(v) == HexDigits(v / 256) + [HexDigit(v / 16 % 16), HexDigit(v % 16)]
  {
    assert HexDigits(v) == HexDigits(v / 16) + [HexDigit(v % 16)];
    assert HexDigits(v / 16) == HexDigits(v / 16 / 16) + [HexDigit(v / 16 % 16)];
    assert v / 16 / 16 == v / 256;
  }

  lemma SixEffs()
    ensures HexDigits(0xFFFFFF) == [HEX_F, HEX_F, HEX_F, HEX_F, HEX_F, HEX_F]
  {
    TwoMoreDigits(0xFFFFFF);
    TwoMoreDigits(0xFFFF);
    assert HexDigits(0xFF) == HexDigits(0xF) + [HEX_F];
  }

  /** A negative number is printed as the eight digits of its two's complement. */
  lemma Hex02OfNegative(i: int32)
    requires -256 <= i < 0
    ensures var v := i + 256;
            Hex02(i) == [HEX_F, HEX_F, HEX_F, HEX_F, HEX_F, HEX_F, HexDigit(v / 16), HexDigit(v % 16)]
  {
    hide *;
    NegativeBits(i);
    TwoMoreDigits(ToBits32(i));
    SixEffs();
    Hex02Is(i);
  }

  lemma Hex02Is(i: int32)
    ensures |HexDigits(ToBits32(i))| >= 2 ==> Hex02(i) == HexDigits(ToBits32(i))
  {
    hide HexDigits;
  }

  lemma NegativeBits(i: int32)
    requires -256 <= i < 0
    ensures var n, v := ToBits32(i), i + 256;
            n >= 256 && n / 256 == 0xFFFFFF && n / 16 % 16 == v / 16 && n % 16 == v % 16
  {
    var n, v: nat := ToBits32(i), i + 256;
    assert n == 0xFFFFFF * 256 + v;
    LowDigits(0xFFFFFF, v);
  }

  lemma LowDigits(high: nat, v: octet)
    ensures var n := high * 256 + v; n / 256 == high && n / 16 % 16 == v / 16 && n % 16 == v % 16
  {
    var n := high * 256 + v;
    assert n / 16 == high * 16 + v / 16;
  }

  lemma ShadeIs(line: bytes, i: nat, v: shade)
    requires v >= 0 ==> i + 1 < |line| && line[i] == HexDigit(v / 16) && line[i + 1] == HexDigit(v % 16)
    requires v < 0 ==> i + 7 < |line| && line[i] == HEX_F && line[i + 1] == HEX_F
                       && line[i + 6] == HexDigit((v + 256) / 16) && line[i + 7] == HexDigit((v + 256) % 16)
    ensures ShadeAt(line, i) == (v, i + if v >= 0 then 2 else 8)
  {
    OctetReads(if v >= 0 then v else v + 256);
    hide HexDigit, DigitValue;
  }

  /** A shade in the middle of a line is read back, and is two or eight digits wide. */
  lemma ShadeReads(before: bytes, v: shade, after: bytes)
    ensures |Hex02(v)| == if v >= 0 then 2 else 8
    ensures ShadeAt(before + Hex02(v) + after, |before|) == (v, |before| + |Hex02(v)|)
  {
    hide *;
    var line, i := before + Hex02(v) + after, |before|;
    if v >= 0 {
      Hex02OfOctet(v);
    } else {
      Hex02OfNegative(v);
    }
    assert forall k | 0 <= k < |Hex02(v)| :: line[i + k] == Hex02(v)[k];
    assert v < 0 ==> line[i + 6] == Hex02(v)[6];
    ShadeIs(line, i, v);
  }

  // ----- lines

  /**
   A colour line has ten bytes: the command, eight lowercase hexadecimal digits, and the newline. It
   decodes to its colour.
   */
  lemma ColourLineDecodes(c: Colour)
    ensures var line := ColourLine(c);
            && |line| == 10 && line[0] == COMMAND && line[9] == NEWLINE
            && (forall k | 1 <= k < 9 :: IsHex(line[k]))
            && DecodeLine(line) == c
  {
    hide *;
    Hex02OfOctet(c.r);
    Hex02OfOctet(c.g);
    Hex02OfOctet(c.b);
    Hex02OfOctet(c.lamp);
    ColourLineIs(c);
    HexLine(ColourLine(c), c);
  }

  lemma ColourLineIs(c: Colour)
    ensures ColourLine(c) == [COMMAND] + Hex02(c.r) + Hex02(c.g) + Hex02(c.b) + Hex02(c.lamp) + [NEWLINE]
  {
    hide Hex02;
  }

  /** The characters `0` to `9` and `a` to `f`. */
  const DIGITS: bytes := [48, 49, 50, 51, 52, 53, 54, 55, 56, 57, 97, 98, 99, 100, 101, 102]

  lemma HexCharacters(n: nat)
    requires n < 16
    ensures HexDigit(n) == DIGITS[n] && COMMAND == 105 && NEWLINE == 10 && RESET == [113, 10]
  {
  }

  lemma OctetCharacters(v: octet)
    ensures Hex02(v) == [DIGITS[v / 16], DIGITS[v % 16]]
  {
    hide *;
    Hex02OfOctet(v);
    HexCharacters(v / 16);
    HexCharacters(v % 16);
  }

  /** A colour line in characters: `i`, two digits each for red, green, blue and the lamp, and a newline. */
  lemma ColourCharacters(c: Colour)
    ensures ColourLine(c) == [105, DIGITS[c.r / 16], DIGITS[c.r % 16], DIGITS[c.g / 16], DIGITS[c.g % 16],
                              DIGITS[c.b / 16], DIGITS[c.b % 16], DIGITS[c.lamp / 16], DIGITS[c.lamp % 16], 10]
  {
    ColourLineIs(c);
    OctetCharacters(c.r);
    OctetCharacters(c.g);
    OctetCharacters(c.b);
    OctetCharacters(c.lamp);
    HexCharacters(0);
    hide DIGITS, Hex02, ColourLine, HexDigit;
  }

  /** An orientation line in characters, for numbers that are not negative; those that are start with six times `f`. */
  lemma TurnCharacters(r: shade, g: shade, b: shade)
    ensures TurnLine(r, g, b) == [105] + Hex02(r) + Hex02(g) + Hex02(b) + [10]
    ensures r >= 0 ==> Hex02(r) == [DIGITS[r / 16], DIGITS[r % 16]]
    ensures r < 0 ==> Hex02(r) == [102, 102, 102, 102, 102, 102, DIGITS[(r + 256) / 16], DIGITS[(r + 256) % 16]]
  {
    TurnLineIs(r, g, b);
    HexCharacters(0);
    HexCharacters(15);
    if r >= 0 {
      OctetCharacters(r);
    } else {
      Hex02OfNegative(r);
      HexCharacters((r + 256) / 16);
      HexCharacters((r + 256) % 16);
    }
    hide DIGITS, Hex02, TurnLine, HexDigit;
  }

  lemma HexLine(line: bytes, c: Colour)
    requires line == [COMMAND] + [HexDigit(c.r / 16), HexDigit(c.r % 16)] + [HexDigit(c.g / 16), HexDigit(c.g % 16)]
                     + [HexDigit(c.b / 16), HexDigit(c.b % 16)] + [HexDigit(c.lamp / 16), HexDigit(c.lamp % 16)]
                     + [NEWLINE]
    ensures |line| == 10 && line[0] == COMMAND && line[9] == NEWLINE && forall k | 1 <= k < 9 :: IsHex(line[k])
    ensures DecodeLine(line) == c
  {
    OctetReads(c.r);
    OctetReads(c.g);
    OctetReads(c.b);
    OctetReads(c.lamp);
    hide HexDigit, DigitValue, IsHex;
    assert line == [COMMAND, HexDigit(c.r / 16), HexDigit(c.r % 16), HexDigit(c.g / 16), HexDigit(c.g % 16),
                    HexDigit(c.b / 16), HexDigit(c.b % 16), HexDigit(c.lamp / 16), HexDigit(c.lamp % 16), NEWLINE];
  }

  lemma TurnFrom(line: bytes, r: shade, i: nat, g: shade, j: nat, b: shade, k: nat)
    requires ShadeAt(line, 1) == (r, i) && ShadeAt(line, i) == (g, j) && ShadeAt(line, j) == (b, k)
    ensures DecodeTurn(line) == Turn(r, g, b)
  {
    hide ShadeAt;
  }

  lemma TurnLineIs(r: shade, g: shade, b: shade)
    ensures TurnLine(r, g, b) == [COMMAND] + Hex02(r) + Hex02(g) + Hex02(b) + [NEWLINE]
  {
    hide Hex02;
  }

  lemma DigitsBetween(a: bytes, b: bytes, c: bytes)
    requires forall d | d in a || d in b || d in c :: IsHex(d)
    ensures var line := [COMMAND] + a + b + c + [NEWLINE];
            && line[0] == COMMAND && line[|line| - 1] == NEWLINE
            && forall k | 1 <= k < |line| - 1 :: IsHex(line[k])
  {
    hide IsHex;
    var line, digits := [COMMAND] + a + b + c + [NEWLINE], a + b + c;
    assert line == [COMMAND] + digits + [NEWLINE];
    forall k | 1 <= k < |line| - 1 ensures IsHex(line[k]) {
      assert line[k] == digits[k - 1] && digits[k - 1] in digits;
    }
  }

  lemma Grouped(a: bytes, b: bytes, c: bytes, d: bytes, e: bytes)
    ensures a + b + c + d + e == a + b + (c + d + e) == a + b + c + (d + e)
  {
  }

  /**
   An orientation line has six digits, and six more for each negative number, and so never eight. It
   decodes to its numbers.
   */
  lemma TurnLineDecodes(r: shade, g: shade, b: shade)
    ensures var line := TurnLine(r, g, b);
            && |line| == 8 + (if r < 0 then 6 else 0) + (if g < 0 then 6 else 0) + (if b < 0 then 6 else 0)
            && line[0] == COMMAND && line[|line| - 1] == NEWLINE
            && (forall k | 1 <= k < |line| - 1 :: IsHex(line[k]))
            && DecodeTurn(line) == Turn(r, g, b)
  {
    hide *;
    var line := TurnLine(r, g, b);
    var i := 1 + |Hex02(r)|;
    var j := i + |Hex02(g)|;
    TurnLineIs(r, g, b);
    Hex02IsHex(r);
    Hex02IsHex(g);
    Hex02IsHex(b);
    DigitsBetween(Hex02(r), Hex02(g), Hex02(b));
    Grouped([COMMAND], Hex02(r), Hex02(g), Hex02(b), [NEWLINE]);
    ShadeReads([COMMAND], r, Hex02(g) + Hex02(b) + [NEWLINE]);
    ShadeReads([COMMAND] + Hex02(r), g, Hex02(b) + [NEWLINE]);
    ShadeReads([COMMAND] + Hex02(r) + Hex02(g), b, [NEWLINE]);
    TurnFrom(line, r, i, g, j, b, j + |Hex02(b)|);
  }

  /** A line ends at its only newline and decodes to its command. */
  lemma TextDecodes(c: Command)
    ensures var line := Text(c);
            && |line| > 0 && Find(line, 0, NEWLINE) == |line| - 1 && line[|line| - 1] == NEWLINE
            && DecodeCommand(line) == c
            && (|line| == 10 <==> c.Paint?)
  {
    hide ColourLine, TurnLine, DecodeLine, DecodeTurn;
    match c {
      case Paint(colour) => ColourLineDecodes(colour);
      case Turn(r, g, b) => TurnLineDecodes(r, g, b);
    }
    var line := Text(c);
    assert forall k | 1 <= k < |line| - 1 :: IsHex(line[k]) && line[k] != NEWLINE;
    FindAt(line, 0, NEWLINE, |line| - 1);
  }

  lemma {:induction false} NoNewlines(s: bytes)
    requires NEWLINE !in s
    ensures Newlines(s) == 0 && DecodeStream(s) == []
  {
    if s != [] {
      NoNewlines(s[1..]);
    }
  }

  lemma {:induction false} NewlinesAfter(s: bytes, e: nat)
    requires e < |s| && s[e] == NEWLINE && NEWLINE !in s[..e]
    ensures Newlines(s) == 1 + Newlines(s[e + 1..])
    decreases e
  {
    if e > 0 {
      assert s[..e][0] == s[0] && s[1..][..e - 1] == s[..e][1..] && s[1..][e..] == s[e + 1..];
      NewlinesAfter(s[1..], e - 1);
    }
  }

  /** A complete line in front of others is read first. */
  lemma FirstLine(c: Command, rest: bytes)
    ensures DecodeStream(Text(c) + rest) == [c] + DecodeStream(rest)
    ensures Newlines(Text(c) + rest) == 1 + Newlines(rest)
  {
    TextDecodes(c);
    var line, s := Text(c), Text(c) + rest;
    var e := |line| - 1;
    hide Text, DecodeCommand, Newlines;
    assert forall k | 0 <= k < e :: s[k] == line[k];
    FindAt(s, 0, NEWLINE, e);
    assert s[..e + 1] == line && s[e + 1..] == rest;
    NewlinesAfter(s, e);
  }

  /** A part of a line is no line. */
  lemma PartOfLine(c: Command, s: bytes)
    requires s <= Text(c) && s != Text(c)
    ensures Newlines(s) == 0 && DecodeStream(s) == []
  {
    TextDecodes(c);
    hide Text, DecodeCommand;
    assert forall k | 0 <= k < |s| :: s[k] == Text(c)[k];
    NoNewlines(s);
  }

  lemma ConsTexts(cs: seq<Command>)
    ensures Texts(cs) == if cs == [] then [] else Text(cs[0]) + Texts(cs[1..])
  {
    hide Text;
  }

  lemma PrefixCases(line: bytes, rest: bytes, s: bytes)
    requires s <= line + rest
    ensures |s| < |line| ==> s <= line && s != line
    ensures |s| >= |line| ==> s == line + s[|line|..] && s[|line|..] <= rest
  {
    assert forall k | 0 <= k < |s| :: s[k] == (line + rest)[k];
    if |s| >= |line| {
      assert s[..|line|] == line;
      assert s[|line|..] == rest[..|s| - |line|];
    } else {
      assert s == line[..|s|];
    }
  }

  /** Whatever prefix of a stream of commands has arrived, its complete lines decode to the first commands sent. */
  lemma {:induction false} PrefixDecodes(cs: seq<Command>, s: bytes)
    requires s <= Texts(cs)
    ensures Newlines(s) <= |cs| && DecodeStream(s) == cs[..Newlines(s)]
    decreases |cs|
  {
    hide *;
    ConsTexts(cs);
    if cs == [] {
      NoNewlines(s);
    } else {
      var line := Text(cs[0]);
      PrefixCases(line, Texts(cs[1..]), s);
      if |s| < |line| {
        PartOfLine(cs[0], s);
      } else {
        var rest := s[|line|..];
        PrefixDecodes(cs[1..], rest);
        FirstLine(cs[0], rest);
        assert cs[..1 + Newlines(rest)] == [cs[0]] + cs[1..][..Newlines(rest)];
      }
    }
  }

  lemma {:induction false} AllNewlines(cs: seq<Command>)
    ensures Newlines(Texts(cs)) == |cs|
  {
    hide *;
    ConsTexts(cs);
    if cs == [] {
      NoNewlines([]);
    } else {
      AllNewlines(cs[1..]);
      FirstLine(cs[0], Texts(cs[1..]));
    }
  }

  /** A stream of lines determines the commands. */
  lemma LinesAreUnique(cs: seq<Command>, ds: seq<Command>)
    requires Texts(cs) == Texts(ds)
    ensures cs == ds
  {
    hide *;
    AllNewlines(cs);
    AllNewlines(ds);
    PrefixDecodes(cs, Texts(cs));
    PrefixDecodes(ds, Texts(ds));
    assert cs[..|cs|] == cs && ds[..|ds|] == ds;
  }

  /** As long as only lamps are painted, every line is ten bytes long. */
  lemma {:induction false} PaintsLength(cs: seq<Command>)
    requires forall c | c in cs :: c.Paint?
    ensures |Texts(cs)| == 10 * |cs|
  {
    hide Text;
    if cs != [] {
      TextDecodes(cs[0]);
      PaintsLength(cs[1..]);
    }
  }

  /** And each of them stands at its multiple of ten. */
  lemma {:induction false} PaintAt(cs: seq<Command>, k: nat)
    requires (forall c | c in cs :: c.Paint?) && k < |cs|
    ensures 10 * k + 10 <= |Texts(cs)| && Texts(cs)[10 * k..10 * k + 10] == ColourLine(cs[k].c)
  {
    hide *;
    PaintsLength(cs);
    ConsTexts(cs);
    TextDecodes(cs[0]);
    if k == 0 {
      PaintText(cs[0]);
      assert Texts(cs)[0..10] == Text(cs[0]);
    } else {
      PaintAt(cs[1..], k - 1);
      LaterSlice(Text(cs[0]), Texts(cs[1..]), 10 * k - 10);
    }
  }

  lemma PaintText(c: Command)
    requires c.Paint?
    ensures Text(c) == ColourLine(c.c)
  {
  }

  lemma LaterSlice(a: bytes, b: bytes, i: nat)
    requires |a| == 10 && i + 10 <= |b|
    ensures (a + b)[i + 10..i + 20] == b[i..i + 10]
  {
  }

  lemma {:induction false} TextsConcat(cs: seq<Command>, ds: seq<Command>)
    ensures Texts(cs + ds) == Texts(cs) + Texts(ds)
    decreases |cs|
  {
    hide Text;
    if cs == [] {
      assert [] + ds == ds;
    } else {
      TextsConcat(cs[1..], ds);
      assert (cs + ds)[1..] == cs[1..] + ds;
    }
  }
}
