/**
 The daemon: OSC packets come in, matching messages become command lines, and the lines go through the
 buffered serial writer.
 */
module Moodpd {
  import opened Bytes
  import opened Pod
  import opened MessageFormat
  import opened Pops
  import opened Messages
  import opened PacketFormat
  import opened Packets
  import opened LampLines
  import opened RgbPattern
  import PatternSpec
  import Serial

  /** What scanning the text of a lamp index leaves in the index; any int at all. */
  type Scanner = bytes -> int32

  function Clamp(v: int32): octet {
    if v < 0 then 0 else if v > 255 then 255 else v
  }

  function Distance(a: int, b: int): nat {
    if a < b then b - a else a - b
  }

  /** Of all colour values the clamped one is nearest to what was asked for. */
  lemma ClampIsNearest(v: int32, c: octet)
    ensures Distance(Clamp(v), v) <= Distance(c, v)
    ensures Distance(Clamp(v), v) == Distance(c, v) ==> Clamp(v) == c
  {
  }

  function LampIndex(scan: Scanner, text: bytes): octet {
    if scan(text) < 0 || scan(text) > 255 then 0 else scan(text)
  }

  // ----- int arithmetic: division truncates towards zero, and sums wrap around

  function Wrap32(i: int): int32 {
    FromBits32(i % RANGE32)
  }

  function TruncDiv(a: int, b: int): int
    requires b > 0
  {
    if a < 0 then -((-a) / b) else a / b
  }

  function TruncMod(a: int, b: int): int
    requires b > 0
  {
    a - TruncDiv(a, b) * b
  }

  /** The angle, turned by half a circle and reduced to one; negative when the sum is. */
  function Turned(v: int32): int {
    TruncMod(Wrap32(v + 180), 360)
  }

  /** An angle in degrees as a colour value. */
  function Angle(v: int32): shade {
    TurnedRange(v);
    AngleRange(Turned(v));
    Wrap32(TruncDiv(Turned(v) * 255, 360))
  }

  lemma TurnedRange(v: int32)
    ensures -360 < Turned(v) < 360
  {
    var w: int := Wrap32(v + 180);
    hide Wrap32;
    if w < 0 {
      assert -w == (-w) / 360 * 360 + (-w) % 360;
    } else {
      assert w == w / 360 * 360 + w % 360;
    }
  }

  lemma AngleRange(m: int)
    requires -360 < m < 360
    ensures var a := TruncDiv(m * 255, 360);
            -256 <= a < 255 && Wrap32(a) == a && (a >= 0 <==> m >= -1) && (m >= 0 ==> a == m * 255 / 360)
  {
    WrapSmall(TruncDiv(m * 255, 360));
    hide Wrap32;
  }

  function OrientationLine(r: int32, g: int32, b: int32): bytes {
    TurnLine(Angle(r), Angle(g), Angle(b))
  }

  /**
   An angle becomes a colour value in 0..255 if and only if the remainder of the turned angle is not
   below -1. From -180 degrees on it does, by the intended formula, as long as the sum does not overflow.
   */
  lemma AngleIsOctet(v: int32)
    ensures 0 <= Angle(v) <= 255 <==> Turned(v) >= -1
    ensures -180 <= v < 0x8000_0000 - 180 ==> Turned(v) >= 0 && Angle(v) == (v + 180) % 360 * 255 / 360
  {
    TurnedRange(v);
    AngleRange(Turned(v));
    if -180 <= v < 0x8000_0000 - 180 {
      WrapSmall(v + 180);
      TruncModIsMod(v + 180);
    }
    hide Wrap32, TruncMod, TruncDiv;
  }

  /**
   The arithmetic of an angle: the sum wraps around in 32 bits; the remainder is less than a circle and has
   the sign of the sum; and the quotient is rounded towards zero.
   */
  lemma AngleMeans(v: int32)
    ensures var sum := if v + 180 < 0x8000_0000 then v + 180 else v + 180 - 0x1_0000_0000;
            && (sum - Turned(v)) % 360 == 0 && -360 < Turned(v) < 360
            && (sum >= 0 ==> Turned(v) >= 0) && (sum <= 0 ==> Turned(v) <= 0)
    ensures Turned(v) >= 0 ==> 0 <= Turned(v) * 255 - Angle(v) * 360 < 360
    ensures Turned(v) <= 0 ==> 0 <= Angle(v) * 360 - Turned(v) * 255 < 360
  {
    var sum := if v + 180 < 0x8000_0000 then v + 180 else v + 180 - 0x1_0000_0000;
    WrapSum(v);
    TruncModMeans(sum);
    AngleFrom(v, Turned(v));
    TruncDivMeans(Turned(v) * 255);
    hide Wrap32, TruncMod, TruncDiv, Angle;
  }

  lemma WrapSum(v: int32)
    ensures Wrap32(v + 180) == if v + 180 < 0x8000_0000 then v + 180 else v + 180 - 0x1_0000_0000
  {
    if v + 180 < 0x8000_0000 {
      WrapSmall(v + 180);
    }
  }

  lemma TruncDivMeans(a: int)
    ensures a >= 0 ==> 0 <= a - TruncDiv(a, 360) * 360 < 360
    ensures a <= 0 ==> 0 <= TruncDiv(a, 360) * 360 - a < 360
  {
  }

  lemma TruncModMeans(a: int)
    ensures (a - TruncMod(a, 360)) % 360 == 0 && -360 < TruncMod(a, 360) < 360
    ensures (a >= 0 ==> TruncMod(a, 360) >= 0) && (a <= 0 ==> TruncMod(a, 360) <= 0)
  {
    TruncDivMeans(a);
    hide TruncDiv;
    assert a - TruncMod(a, 360) == 360 * TruncDiv(a, 360);
  }

  lemma WrapSmall(i: int)
    requires -0x8000_0000 <= i < 0x8000_0000
    ensures Wrap32(i) == i
  {
    if i < 0 {
      assert i % RANGE32 == i + RANGE32;
    }
  }

  lemma TruncModIsMod(i: nat)
    ensures TruncMod(i, 360) == i % 360
  {
  }

  function Extra(v: int32): nat {
    if Turned(v) >= -1 then 0 else 6
  }

  /** The orientation line has eight bytes, and six more for each angle that does not become a colour value. */
  lemma OrientationLineFixed(r: int32, g: int32, b: int32)
    ensures |OrientationLine(r, g, b)| == 8 + Extra(r) + Extra(g) + Extra(b)
    ensures |OrientationLine(r, g, b)| == 8 <==> Turned(r) >= -1 && Turned(g) >= -1 && Turned(b) >= -1
  {
    AngleIsOctet(r);
    AngleIsOctet(g);
    AngleIsOctet(b);
    hide Angle, TurnLine, Turned;
    TurnLineDecodes(Angle(r), Angle(g), Angle(b));
  }

  lemma AngleFrom(v: int32, m: int)
    requires Turned(v) == m
    ensures -360 < m < 360 && Angle(v) == TruncDiv(m * 255, 360)
  {
    TurnedRange(v);
    AngleRange(m);
    hide Wrap32, TruncDiv, Turned;
  }

  lemma SteepTurns()
    ensures Turned(-182) == -2 && Turned(-181) == -1 && Turned(0) == 180
  {
    WrapSmall(-2);
    WrapSmall(-1);
    WrapSmall(180);
    hide Wrap32;
  }

  /** An angle of -182 degrees becomes -1, and its line is not the usual width; an angle of -181 still becomes 0. */
  lemma SteepAngle()
    ensures Angle(-182) == -1 && |OrientationLine(-182, 0, 0)| == 14
    ensures Angle(-181) == 0 && |OrientationLine(-181, 0, 0)| == 8
  {
    hide Angle, Turned, OrientationLine;
    SteepTurns();
    AngleFrom(-182, -2);
    AngleFrom(-181, -1);
    OrientationLineFixed(-182, 0, 0);
    OrientationLineFixed(-181, 0, 0);
  }

  // ----- the commands of messages and packets

  predicate Triple(args: seq<Arg>) {
    |args| == 3 && args[0].Int32? && args[1].Int32? && args[2].Int32?
  }

  predicate IsRgb(address: bytes, args: seq<Arg>) {
    PatternSpec.FullMatch(RGB_PATTERN, address) && Triple(args)
  }

  function ColourOf(address: bytes, args: seq<Arg>, scan: Scanner): Colour
    requires Triple(args) && |address| >= |LAMP_PREFIX|
  {
    Colour(Clamp(args[0].i), Clamp(args[1].i), Clamp(args[2].i), LampIndex(scan, address[|LAMP_PREFIX|..]))
  }

  /** The command that a message asks for, if any. */
  function CommandOf(address: bytes, args: seq<Arg>, scan: Scanner): Option<Command>
    requires NUL !in address
  {
    if IsRgb(address, args) then
      RgbAddresses(address);
      LampPrefixLength();
      Some(Paint(ColourOf(address, args, scan)))
    else if PatternSpec.FullMatch(ORI_PATTERN, address) && Triple(args) then
      Some(Turn(Angle(args[0].i), Angle(args[1].i), Angle(args[2].i)))
    else None
  }

  // ----- what a message asks for, in terms of the line that the lamp gets

  /** Of all colour values, `x` is the nearest to `v`. */
  ghost predicate Nearest(x: octet, v: int) {
    forall c: octet :: Distance(x, v) <= Distance(c, v)
  }

  /** The line carries the colours nearest to the given ones, in this order, and the lamp index if it is in range. */
  ghost predicate PaintsLine(line: bytes, r: int, g: int, b: int, index: int) {
    && |line| == 10 && line[0] == 105 && line[9] == 10
    && (forall k | 1 <= k < 9 :: IsHex(line[k]))
    && var c := DecodeLine(line);
       Nearest(c.r, r) && Nearest(c.g, g) && Nearest(c.b, b) && c.lamp == if 0 <= index <= 255 then index else 0
  }

  /** The address `/moodpd/lamps/`, a name without a slash, and `/rgb`. */
  predicate AtLamp(address: bytes, lamp: bytes) {
    && 47 !in lamp
    && address == [47, 109, 111, 111, 100, 112, 100, 47, 108, 97, 109, 112, 115, 47] + lamp + [47, 114, 103, 98]
  }

  /**
   What a message asks for: three integers at a lamp's address ask for a colour line, three at `/ori` for a
   line of three angles, and any other message for nothing.
   */
  ghost predicate AsksFor(address: bytes, args: seq<Arg>, scan: Scanner, line: bytes) {
    if Triple(args) && exists lamp :: AtLamp(address, lamp) then
      exists lamp :: AtLamp(address, lamp)
                     && PaintsLine(line, args[0].i, args[1].i, args[2].i, scan(lamp + [47, 114, 103, 98]))
    else if Triple(args) && address == [47, 111, 114, 105] then
      line == [105] + Hex02(Angle(args[0].i)) + Hex02(Angle(args[1].i)) + Hex02(Angle(args[2].i)) + [10]
    else line == []
  }

  /** The text of a command, if there is one. */
  function LineOf(c: Option<Command>): bytes {
    if c.None? then [] else Text(c.value)
  }

  /** What the line is once it has been given something to send, if anything. */
  function Forwarded(l: Serial.Line, line: bytes, oracle: Serial.Oracle): Serial.Line {
    if line == [] then l else Serial.Written(l, line, oracle)
  }

  lemma ClampNearest(v: int32)
    ensures Nearest(Clamp(v), v)
  {
    forall c: octet ensures Distance(Clamp(v), v) <= Distance(c, v) {
      ClampIsNearest(v, c);
    }
  }

  lemma LampAddresses(address: bytes)
    requires NUL !in address
    ensures PatternSpec.FullMatch(RGB_PATTERN, address) <==> exists lamp :: AtLamp(address, lamp)
    ensures PatternSpec.FullMatch(ORI_PATTERN, address) <==> address == [47, 111, 114, 105]
    ensures forall lamp | AtLamp(address, lamp) :: |address| >= 14 && address[14..] == lamp + [47, 114, 103, 98]
  {
    RgbAddresses(address);
    OriAddresses(address);
    PatternCharacters();
    forall lamp
      ensures AtLamp(address, lamp) <==> PatternSpec.SLASH !in lamp && address == LAMP_PREFIX + lamp + RGB_SUFFIX
    {}
    forall lamp | AtLamp(address, lamp) ensures |address| >= 14 && address[14..] == lamp + [47, 114, 103, 98] {
      LampRest(LAMP_PREFIX, lamp, RGB_SUFFIX);
    }
    hide PatternSpec.FullMatch;
  }

  lemma LampRest(prefix: bytes, lamp: bytes, suffix: bytes)
    ensures (prefix + lamp + suffix)[|prefix|..] == lamp + suffix
  {
  }

  lemma PaintAsked(r: int32, g: int32, b: int32, scan: Scanner, text: bytes)
    ensures PaintsLine(ColourLine(Colour(Clamp(r), Clamp(g), Clamp(b), LampIndex(scan, text))), r, g, b, scan(text))
  {
    var c := Colour(Clamp(r), Clamp(g), Clamp(b), LampIndex(scan, text));
    ColourLineDecodes(c);
    ClampNearest(r);
    ClampNearest(g);
    ClampNearest(b);
    HexCharacters(0);
    hide ColourLine, DecodeLine, Nearest, IsHex, Clamp;
  }

  /** The command of a message is what the message asks for. */
  lemma CommandAsks(address: bytes, args: seq<Arg>, scan: Scanner)
    requires NUL !in address
    ensures AsksFor(address, args, scan, LineOf(CommandOf(address, args, scan)))
  {
    LampAddresses(address);
    LampPrefixLength();
    if IsRgb(address, args) {
      var lamp :| AtLamp(address, lamp);
      PaintAsked(args[0].i, args[1].i, args[2].i, scan, lamp + [47, 114, 103, 98]);
    } else if PatternSpec.FullMatch(ORI_PATTERN, address) && Triple(args) {
      TurnCharacters(Angle(args[0].i), Angle(args[1].i), Angle(args[2].i));
    }
    hide PatternSpec.FullMatch, PaintsLine, AtLamp, ColourLine, TurnLine, Hex02, Angle, Clamp, LampIndex;
  }

  lemma SentIsForwarded(l: Serial.Line, c: Option<Command>, oracle: Serial.Oracle)
    ensures Sent(l, c, oracle) == Forwarded(l, LineOf(c), oracle)
  {
    if c.Some? {
      TextLength(c.value);
    }
    hide Serial.Written, Text;
  }

  lemma NearestIsOne(x: octet, y: octet, v: int32)
    requires Nearest(x, v) && Nearest(y, v)
    ensures x == y
  {
    ClampIsNearest(v, x);
    ClampIsNearest(v, y);
    hide Clamp;
    assert Distance(x, v) <= Distance(Clamp(v), v) && Distance(y, v) <= Distance(Clamp(v), v);
  }

  lemma HexIsOne(a: byte, b: byte, c: byte, d: byte)
    requires IsHex(a) && IsHex(b) && IsHex(c) && IsHex(d)
    requires DigitValue(a) * 16 + DigitValue(b) == DigitValue(c) * 16 + DigitValue(d)
    ensures a == c && b == d
  {
  }

  lemma PaintedIsOne(line: bytes, other: bytes, r: int32, g: int32, b: int32, index: int)
    requires PaintsLine(line, r, g, b, index) && PaintsLine(other, r, g, b, index)
    ensures line == other
  {
    var c, d := DecodeLine(line), DecodeLine(other);
    NearestIsOne(c.r, d.r, r);
    NearestIsOne(c.g, d.g, g);
    NearestIsOne(c.b, d.b, b);
    hide Nearest;
    HexIsOne(line[1], line[2], other[1], other[2]);
    HexIsOne(line[3], line[4], other[3], other[4]);
    HexIsOne(line[5], line[6], other[5], other[6]);
    HexIsOne(line[7], line[8], other[7], other[8]);
    hide DigitValue, IsHex;
    forall k | 0 <= k < 10 ensures line[k] == other[k] {}
  }

  /** A message asks for no more than one line. */
  lemma AsksForOne(address: bytes, args: seq<Arg>, scan: Scanner, line: bytes, other: bytes)
    requires AsksFor(address, args, scan, line) && AsksFor(address, args, scan, other)
    ensures line == other
  {
    hide PaintsLine, Hex02;
    if Triple(args) && exists lamp :: AtLamp(address, lamp) {
      var text := [47, 114, 103, 98];
      var a :| AtLamp(address, a) && PaintsLine(line, args[0].i, args[1].i, args[2].i, scan(a + text));
      var b :| AtLamp(address, b) && PaintsLine(other, args[0].i, args[1].i, args[2].i, scan(b + text));
      var prefix: bytes := [47, 109, 111, 111, 100, 112, 100, 47, 108, 97, 109, 112, 115, 47];
      LampRest(prefix, a, text);
      LampRest(prefix, b, text);
      PaintedIsOne(line, other, args[0].i, args[1].i, args[2].i, scan(a + text));
    }
  }

  lemma LampPrefixLength()
    ensures |LAMP_PREFIX| == 14
  {
  }

  function Sent(l: Serial.Line, command: Option<Command>, oracle: Serial.Oracle): Serial.Line {
    if command.None? then l else Serial.Written(l, Text(command.value), oracle)
  }

  function MessageCommand(m: MessageState, scan: Scanner): Option<Command> {
    if NUL in m.address then None else CommandOf(m.address, ParsedArgs(m.data), scan)
  }

  function SentAll(l: Serial.Line, msgs: seq<MessageState>, scan: Scanner, oracle: Serial.Oracle): Serial.Line
    decreases |msgs|
  {
    if msgs == [] then l
    else
      var n := |msgs| - 1;
      Sent(SentAll(l, msgs[..n], scan, oracle), MessageCommand(msgs[n], scan), oracle)
  }

  /** The messages the daemon gets from a packet: none of them if anything in the packet is malformed. */
  function Received(d: bytes): seq<MessageState> {
    if ReadPacket(d).err == Ok then ReadPacket(d).msgs else []
  }

  // ----- the daemon

  lemma {:induction false} GoodReadingRange(d: bytes, tt: bits64)
    requires ReadRange(d, tt).err == Ok
    ensures forall m | m in ReadRange(d, tt).msgs :: m.err == Ok && NUL !in m.address
    decreases |d|, 1
  {
    if d != [] && d[0] == HASH {
      GoodReadingElems(d[16..], LongWord(d, 8));
    } else if d != [] {
      ParsedAddress(d);
    }
  }

  lemma {:induction false} GoodReadingElems(d: bytes, tt: bits64)
    requires ReadElems(d, tt).err == Ok
    ensures forall m | m in ReadElems(d, tt).msgs :: m.err == Ok && NUL !in m.address
    decreases |d|, 0
  {
    hide Word, ReadRange;
    var next := 4 + Word(d, 0);
    GoodReadingRange(d[4..next], tt);
    if next < |d| {
      GoodReadingElems(d[next..], tt);
    }
  }

  lemma ParsedAddress(d: bytes)
    ensures NUL !in ParseMessage(d).address
  {
    hide ScanArgs, Ceil4, PaddedAt;
  }

  lemma GoodReading(d: bytes)
    requires ReadPacket(d).err == Ok
    ensures forall m | m in ReadPacket(d).msgs :: m.err == Ok && NUL !in m.address
  {
    GoodReadingRange(d, TIME_IMMEDIATE);
  }

  lemma ThreePops(args: seq<Arg>, matched: bool)
    ensures var pops := [AsInt32, AsInt32, AsInt32];
            |pops| == |args| && AllFitting(pops, args) <==> Triple(args)
  {
    TripleTags(args);
  }

  lemma TripleTags(args: seq<Arg>)
    ensures forall a | a in args :: Fitting(AsInt32, a) <==> a.Int32?
  {
    forall a | a in args ensures Fitting(AsInt32, a) <==> a.Int32? {
      TagDetermines(a);
    }
  }

  lemma RunThree(n: nat, tags: bytes, c: Cursor)
    requires n <= |tags|
    ensures Run(n, tags, c, [AsInt32, AsInt32, AsInt32]) ==
            Step(n, tags, Step(n, tags, Step(n, tags, c, AsInt32), AsInt32), AsInt32)
  {
    hide Step;
    var pops := [AsInt32, AsInt32, AsInt32];
    assert pops[1..] == [AsInt32, AsInt32] && pops[1..][1..] == [AsInt32] && pops[1..][1..][1..] == [];
  }

  lemma TextLength(c: Command)
    ensures Text(c) != []
  {
    TextDecodes(c);
  }

  class Daemon {
    const serial: Serial.NonblockWriter
    const scan: Scanner

    /** Opens the serial line and resets the lamp. */
    constructor (device: Serial.Device, scan: Scanner)
      modifies device
      ensures this.scan == scan && serial.device == device && fresh(serial)
      ensures serial.State() ==
              old(Serial.Written(Serial.Line([], device.received, device.attempts), RESET, device.oracle))
    {
      this.scan := scan;
      serial := new Serial.NonblockWriter(device);
      new;
      serial.Write(RESET);
    }

    method WriteCommand(command: bytes)
      requires command != []
      modifies serial, serial.device
      ensures serial.State() == old(Serial.Written(serial.State(), command, serial.device.oracle))
    {
      serial.Write(command);
    }

    /** Three integers from a message whose address matches the pattern, and nothing after them. */
    method PopTriple(msg: Message, pattern: bytes) returns (ok: bool, r: int32, g: int32, b: int32)
      requires msg.Valid() && msg.err == Ok
      ensures ok <==> PatternSpec.FullMatch(pattern, msg.address) && Triple(msg.args)
      ensures ok ==> msg.args == [Int32(r), Int32(g), Int32(b)]
    {
      var reader := msg.Match(pattern);
      r := reader.PopInt32();
      g := reader.PopInt32();
      b := reader.PopInt32();
      ok := reader.IsOkNoMoreArgs();
      ghost var matched := PatternSpec.FullMatch(pattern, msg.address);
      RunThree(|msg.args|, msg.typeTags, Start(Ok, matched));
      PopChainExact(msg.args, matched, [AsInt32, AsInt32, AsInt32]);
      ThreePops(msg.args, matched);
    }

    /** What one message does. */
    method HandleMessage(msg: Message)
      requires msg.Valid() && msg.err == Ok && NUL !in msg.address
      modifies serial, serial.device
      ensures serial.State() == old(Sent(serial.State(), CommandOf(msg.address, msg.args, scan), serial.device.oracle))
      ensures exists line :: AsksFor(msg.address, msg.args, scan, line)
                             && serial.State() == Forwarded(old(serial.State()), line, serial.device.oracle)
    {
      CommandAsks(msg.address, msg.args, scan);
      SentIsForwarded(serial.State(), CommandOf(msg.address, msg.args, scan), serial.device.oracle);
      hide AsksFor, Forwarded;
      var ok, r, g, b := PopTriple(msg, RGB_PATTERN);
      if ok {
        RgbAddresses(msg.address);
        LampPrefixLength();
        var c := Colour(Clamp(r), Clamp(g), Clamp(b), LampIndex(scan, msg.address[|LAMP_PREFIX|..]));
        TextLength(Paint(c));
        WriteCommand(ColourLine(c));
      } else {
        ok, r, g, b := PopTriple(msg, ORI_PATTERN);
        if ok {
          TextLength(Turn(Angle(r), Angle(g), Angle(b)));
          WriteCommand(OrientationLine(r, g, b));
        }
      }
    }

    /** The loop over the messages of a packet. */
    method HandleMessages(reader: PacketReader, ghost all: Reading)
      requires reader.Holds(all) && reader.err == Ok && reader.next == 0
      requires forall m | m in all.msgs :: m.err == Ok && NUL !in m.address
      modifies reader, serial, serial.device
      ensures serial.State() == old(SentAll(serial.State(), all.msgs, scan, serial.device.oracle))
    {
      hide SentAll, Sent, MessageCommand, CommandOf, ParsedArgs, Stands;
      ghost var start, oracle := serial.State(), serial.device.oracle;
      ghost var k := 0;
      var msg := reader.PopMessage();
      SentNone(start, all.msgs, scan, oracle);
      StandsLength(reader.messages, all.msgs);
      while msg != null
        invariant Stands(reader.messages, all.msgs) && reader.err == Ok
        invariant k <= |all.msgs| == |reader.messages|
        invariant if msg == null then k == |all.msgs|
                  else reader.next == k + 1 <= |all.msgs| && msg == reader.messages[k]
        invariant serial.State() == SentAll(start, all.msgs[..k], scan, oracle)
        decreases |all.msgs| - k, msg != null
      {
        StandsAt(reader.messages, all.msgs, k);
        HandleMessage(msg);
        SentOne(start, all.msgs, k, scan, oracle);
        msg := reader.PopMessage();
        k := k + 1;
      }
      assert all.msgs[..|all.msgs|] == all.msgs;
    }

    /** What one OSC packet does. */
    method HandlePacket(d: bytes)
      modifies serial, serial.device
      ensures serial.State() == old(SentAll(serial.State(), Received(d), scan, serial.device.oracle))
    {
      hide ReadPacket, SentAll, Stands;
      SentNone(serial.State(), [], scan, serial.device.oracle);
      var reader := new PacketReader();
      reader.Init(d);
      if reader.err == Ok {
        GoodReading(d);
        HandleMessages(reader, ReadPacket(d));
      }
    }

    /** The serial line is ready for writing. The daemon only looks when there is something to write. */
    method HandleWritable()
      modifies serial, serial.device
      ensures serial.State() == old(Serial.Flushed(serial.State(), serial.device.oracle).0)
    {
      var nothing := serial.WriteBufferEmpty();
      if !nothing {
        var done := serial.Flush();
      }
    }
  }

  lemma SentNone(l: Serial.Line, msgs: seq<MessageState>, scan: Scanner, oracle: Serial.Oracle)
    ensures SentAll(l, msgs[..0], scan, oracle) == l && SentAll(l, [], scan, oracle) == l
  {
  }

  lemma SentOne(l: Serial.Line, msgs: seq<MessageState>, k: nat, scan: Scanner, oracle: Serial.Oracle)
    requires k < |msgs|
    ensures SentAll(l, msgs[..k + 1], scan, oracle) ==
            Sent(SentAll(l, msgs[..k], scan, oracle), MessageCommand(msgs[k], scan), oracle)
    ensures NUL !in msgs[k].address ==>
              MessageCommand(msgs[k], scan) == CommandOf(msgs[k].address, ParsedArgs(msgs[k].data), scan)
  {
    hide Sent, CommandOf, ParsedArgs;
    assert msgs[..k + 1][..k] == msgs[..k];
  }
}
