/**
 The wire format spelled out in bytes.
 */
module WireFacts {
  import opened Bytes
  import opened Pod
  import opened MessageFormat
  import opened MessageLaws
  import opened Messages
  import opened PacketFormat
  import opened ReaderLaws
  import opened WriterFormat
  import opened WriterLaws
  import opened WriterRuns
  import opened Packets
  import opened RoundTrip

  // ----- numbers

  function Big4(a: byte, b: byte, c: byte, d: byte): nat {
    0x100_0000 * a + 0x1_0000 * b + 0x100 * c + d
  }

  lemma FromWireSteps(d: bytes, x: byte)
    ensures FromWire(d + [x]) == 256 * FromWire(d) + x && FromWire([]) == 0
  {
    assert (d + [x])[..|d|] == d;
  }

  /** Four bytes on the wire, most significant first. */
  lemma FourBytes(a: byte, b: byte, c: byte, d: byte)
    ensures FromWire([a, b, c, d]) == Big4(a, b, c, d) && ToWire(4, Big4(a, b, c, d)) == [a, b, c, d]
  {
    FromWireSteps([], a);
    FromWireSteps([a], b);
    FromWireSteps([a, b], c);
    FromWireSteps([a, b, c], d);
    assert [] + [a] == [a] && [a] + [b] == [a, b] && [a, b] + [c] == [a, b, c] && [a, b, c] + [d] == [a, b, c, d];
    ToFromWire([a, b, c, d]);
    hide FromWire, ToWire;
  }

  /** Eight bytes are two words, the more significant one first. */
  lemma EightBytes(high: bytes, low: bytes)
    requires |high| == 4 && |low| == 4
    ensures FromWire(high + low) == RANGE32 * FromWire(high) + FromWire(low)
    ensures ToWire(8, RANGE32 * FromWire(high) + FromWire(low)) == high + low
  {
    FromWireSteps(high, low[0]);
    FromWireSteps(high + low[..1], low[1]);
    FromWireSteps(high + low[..2], low[2]);
    FromWireSteps(high + low[..3], low[3]);
    FourBytes(low[0], low[1], low[2], low[3]);
    assert low == [low[0], low[1], low[2], low[3]];
    assert low[..1] == [low[0]] && low[..2] == [low[0], low[1]] && low[..3] == [low[0], low[1], low[2]];
    assert high + low[..1] + [low[1]] == high + low[..2];
    assert high + low[..2] + [low[2]] == high + low[..3];
    assert high + low[..3] + [low[3]] == high + low;
    ToFromWire(high + low);
    hide FromWire, ToWire;
  }

  /** Only the low-order bytes of a number are written. */
  lemma {:induction false} LowOrderBytes(width: nat, v: nat)
    ensures ToWire(width, v) == ToWire(width, v % Range(width))
  {
    if width > 0 {
      var r := Range(width - 1);
      LowOrderQuotient(v, r);
      LowOrderBytes(width - 1, v / 256);
    }
  }

  lemma LowOrderQuotient(v: nat, r: nat)
    requires r > 0
    ensures v % (256 * r) % 256 == v % 256 && v % (256 * r) / 256 == v / 256 % r
  {
    var q, m := v / 256 / r, v / 256 % r;
    var low := 256 * m + v % 256;
    assert v == 256 * (v / 256) + v % 256 && v / 256 == q * r + m;
    assert v == q * (256 * r) + low;
    assert m + 1 <= r && low < 256 * r;
    Remainder(v, 256 * r, q, low);
  }

  lemma Remainder(v: nat, n: nat, q: nat, m: nat)
    requires n > 0 && m < n && v == q * n + m
    ensures v % n == m
  {
    assert (v / n - q) * n == m - v % n;
    SmallMultiple(v / n - q, n);
  }

  lemma SmallMultiple(d: int, n: int)
    requires n > 0 && -n < d * n < n
    ensures d == 0
  {
  }

  /** A little-endian host keeps the least significant byte first, a big-endian one last. */
  lemma HostOrder(a: byte, b: byte, c: byte, d: byte)
    ensures Value(BigEndian, [a, b, c, d]) == Big4(a, b, c, d) == Value(LittleEndian, [d, c, b, a])
  {
    FourBytes(a, b, c, d);
    hide FromWire, ToWire;
    assert [d, c, b, a][1..] == [c, b, a] && [c, b, a][1..] == [b, a] && [b, a][1..] == [a] && [a][1..] == [];
    assert Value(LittleEndian, []) == 0;
    assert Value(LittleEndian, [a]) == a;
    assert Value(LittleEndian, [b, a]) == b + 256 * a;
    assert Value(LittleEndian, [c, b, a]) == c + 256 * (b + 256 * a);
  }

  /** Negative numbers are in two's complement. */
  lemma TwosComplement(i: int32, h: int64)
    ensures (ToBits32(i) - i) % 0x1_0000_0000 == 0 && (ToBits64(h) - h) % 0x1_0000_0000_0000_0000 == 0
    ensures FromBits32(ToBits32(i)) == i && FromBits64(ToBits64(h)) == h
  {
  }

  // ----- arguments

  /** The type tags are the characters T, F, i, h, f, d, s and b. */
  lemma TagCharacters(i: int32, h: int64, f: bits32, d: bits64, s: bytes, b: bytes)
    ensures Tags([True, False, Int32(i), Int64(h), Float(f), Double(d), Str(s), Blob(b)]) ==
            [84, 70, 105, 104, 102, 100, 115, 98]
  {
  }

  lemma PadWord(d: bytes)
    requires |d| == 4 || |d| == 8 || |d| == 0
    ensures Pad(d) == d
  {
  }

  /** Booleans have no bytes; a 32-bit integer has four, a 64-bit integer eight, in two's complement. */
  lemma IntegerBytes(i: int32, h: int64)
    ensures Encode(True) == [] && Encode(False) == []
    ensures |Encode(Int32(i))| == 4 && |Encode(Int64(h))| == 8
    ensures FromWire(Encode(Int32(i))) == if i >= 0 then i else i + 0x1_0000_0000
    ensures FromWire(Encode(Int64(h))) == if h >= 0 then h else h + 0x1_0000_0000_0000_0000
  {
    PadWord(Raw(Int32(i)));
    PadWord(Raw(Int64(h)));
    Ranges();
    FromToWire(4, ToBits32(i));
    FromToWire(8, ToBits64(h));
    hide ToWire, FromWire, Pad;
    PadWord([]);
  }

  /** Floating point values are their bit patterns. */
  lemma FloatBytes(f: bits32, d: bits64)
    ensures |Encode(Float(f))| == 4 && |Encode(Double(d))| == 8
    ensures FromWire(Encode(Float(f))) == f && FromWire(Encode(Double(d))) == d
  {
    PadWord(Raw(Float(f)));
    PadWord(Raw(Double(d)));
    Ranges();
    FromToWire(4, f);
    FromToWire(8, d);
    hide ToWire, FromWire, Pad;
  }

  /** A string is followed by one to four zeros, a blob by none to three, to make a multiple of 4. */
  lemma StringBytes(s: bytes, b: bytes)
    ensures var zeros := 4 - |s| % 4;
            Encode(Str(s)) == s + Zeros(zeros) && EncodeStr(s) == s + Zeros(zeros) && |Encode(Str(s))| % 4 == 0
    ensures var zeros := (4 - |b| % 4) % 4;
            Encode(Blob(b)) == ToWire(4, |b|) + b + Zeros(zeros) && |Encode(Blob(b))| % 4 == 0
  {
    hide *;
    PaddedLength(s + [0]);
    StringIs(s);
    AfterNul(s, |s| % 4);
    NextRemainder(|s|);
    PaddedLength(ToWire(4, |b|) + b);
    BlobIs(b);
    FourMore(|b|);
  }

  lemma {:induction false} AfterNul(s: bytes, m: nat)
    requires m < 4
    ensures s + [0] + Zeros(3 - m) == s + Zeros(4 - m)
  {
  }

  lemma NextRemainder(n: nat)
    ensures (4 - (n + 1) % 4) % 4 == 3 - n % 4
  {
  }

  lemma FourMore(n: nat)
    ensures (n + 4) % 4 == n % 4
  {
  }

  lemma StringIs(s: bytes)
    ensures Encode(Str(s)) == Pad(s + [0]) && EncodeStr(s) == Pad(s + [0])
  {
  }

  lemma BlobIs(b: bytes)
    ensures Encode(Blob(b)) == Pad(ToWire(4, |b|) + b) && |ToWire(4, |b|)| == 4
  {
    hide ToWire;
  }

  lemma PaddedLength(d: bytes)
    ensures Pad(d) == d + Zeros((4 - |d| % 4) % 4) && |Pad(d)| % 4 == 0
  {
    hide *;
    Ceil4Means(|d|);
    RoundedUp(|d|);
    PadIs(d);
  }

  lemma {:induction false} PadIs(d: bytes)
    ensures |d| <= Ceil4(|d|) && Pad(d) == d + Zeros(Ceil4(|d|) - |d|)
  {
    hide Ceil4;
  }

  lemma RoundedUp(n: nat)
    ensures (n + 3) / 4 * 4 == n + (4 - n % 4) % 4
    ensures (n + 3) / 4 * 4 % 4 == 0
  {
  }

  /** A string that is appended is copied up to its first NUL; all the room made for it is zero from there on. */
  lemma {:induction false} CopiedUpToNul(a: bytes, more: bytes)
    requires 0 !in a
    ensures CopiedStr(a + [0] + more) == a + Zeros(Ceil4(|a| + |more| + 2) - |a|)
  {
    hide *;
    var s := a + [0] + more;
    CStrEnds(a, more);
    CopiedIs(s);
    assert |s| + 1 == |a| + |more| + 2;
  }

  lemma CopiedIs(s: bytes)
    ensures |CStr(s)| <= |s| + 1 <= Ceil4(|s| + 1)
    ensures CopiedStr(s) == CStr(s) + Zeros(Ceil4(|s| + 1) - |CStr(s)|)
  {
    hide Ceil4;
  }

  /** A message is its address, which starts with a slash, a comma and the type tags, and the arguments. */
  lemma MessageBytes(address: bytes, args: seq<Arg>)
    ensures EncodeMessage(address, args) == EncodeStr(address) + EncodeStr([44] + Tags(args)) + EncodeArgs(args)
    ensures Sendable(address, args) ==> address != [] && address[0] == 47 && 0 !in address
  {
    hide EncodeStr, EncodeArgs, Aligned, Encodable;
  }

  lemma ArgsBytes(a: Arg, args: seq<Arg>)
    ensures EncodeArgs([a] + args) == Encode(a) + EncodeArgs(args) && EncodeArgs([]) == []
  {
    EncodeArgsCons(a, args);
  }

  // ----- bundles

  /** A bundle starts with its name, a NUL, and eight bytes of time tag; each element comes after its size. */
  lemma BundleBytes(tt: bits64, elems: seq<Packet>)
    ensures Flat(Bundle(tt, elems)) == [35, 98, 117, 110, 100, 108, 101, 0] + ToWire(8, tt) + FlatElems(elems)
    ensures FlatElems([]) == []
    ensures elems != [] ==> FlatElems(elems) == ToWire(4, |Flat(elems[0])|) + Flat(elems[0]) + FlatElems(elems[1..])
  {
    hide ToWire;
  }

  /** The time tag of a packet without bundle is 1, for immediately. */
  lemma ImmediateIsOne()
    ensures TIME_IMMEDIATE == 1
  {
  }

  lemma SmallWord(n: byte)
    ensures ToWire(4, n) == [0, 0, 0, n] && FromWire([0, 0, 0, n]) == n
  {
    hide *;
    FourBytes(0, 0, 0, n);
    SmallBig4(n);
  }

  lemma SmallBig4(n: byte)
    ensures Big4(0, 0, 0, n) == n
  {
  }

  lemma SmallLong(n: byte)
    ensures ToWire(8, n) == [0, 0, 0, 0, 0, 0, 0, n]
  {
    hide *;
    SmallWord(0);
    SmallWord(n);
    EightBytes([0, 0, 0, 0], [0, 0, 0, n]);
    assert [0, 0, 0, 0] + [0, 0, 0, n] == [0, 0, 0, 0, 0, 0, 0, n];
  }

  lemma NothingBytes()
    ensures Flat(Nothing) == []
  {
  }

  lemma OneElement(tt: bits64, p: Packet)
    ensures Flat(Bundle(tt, [p])) ==
            [35, 98, 117, 110, 100, 108, 101, 0] + ToWire(8, tt) + (ToWire(4, |Flat(p)|) + Flat(p))
  {
    hide *;
    BundleBytes(tt, [p]);
    BundleBytes(tt, []);
    assert [p][1..] == [] && ToWire(4, |Flat(p)|) + Flat(p) + [] == ToWire(4, |Flat(p)|) + Flat(p);
  }

  /** `#bundle`, its NUL, and the time tag 1. */
  const BUNDLE_START: bytes := [35, 98, 117, 110, 100, 108, 101, 0, 0, 0, 0, 0, 0, 0, 0, 1]

  lemma HeaderOne()
    ensures [35, 98, 117, 110, 100, 108, 101, 0] + [0, 0, 0, 0, 0, 0, 0, 1] == BUNDLE_START && |BUNDLE_START| == 16
  {
  }

  /** A bundle of one short element that is due immediately. */
  lemma ShortBundle(tt: bits64, p: Packet, n: byte)
    requires tt == 1 && |Flat(p)| == n
    ensures Flat(Bundle(tt, [p])) == BUNDLE_START + [0, 0, 0, n] + Flat(p)
    ensures |Flat(Bundle(tt, [p]))| == 20 + n
  {
    hide *;
    OneElement(tt, p);
    SmallLong(1);
    SmallWord(n);
    HeaderOne();
    assert BUNDLE_START + ([0, 0, 0, n] + Flat(p)) == BUNDLE_START + [0, 0, 0, n] + Flat(p);
  }

  /** An empty bundle is its header and a zero word; one inside another is an element of twenty bytes. */
  lemma EmptyBundlesFlat(tt: bits64)
    requires tt == 1
    ensures var inner := Bundle(tt, [Nothing]);
            && Flat(inner) == BUNDLE_START + [0, 0, 0, 0]
            && Flat(Bundle(tt, [inner])) == BUNDLE_START + [0, 0, 0, 20] + (BUNDLE_START + [0, 0, 0, 0])
            && |Flat(Bundle(tt, [inner]))| == 40
  {
    hide *;
    NothingBytes();
    ShortBundle(tt, Nothing, 0);
    assert BUNDLE_START + [0, 0, 0, 0] + [] == BUNDLE_START + [0, 0, 0, 0];
    ShortBundle(tt, Bundle(tt, [Nothing]), 20);
  }

  /** Each message gets the time tag of the innermost bundle around it, also after an inner bundle; alone it gets 1. */
  lemma InnermostTags(t: bits64, u: bits64, a: bytes, b: bytes, c: bytes)
    requires Good(Leaf(a)) && Good(Leaf(b)) && Good(Leaf(c)) && |a| + |b| + |c| < 0x1000_0000
    ensures var r := ReadPacket(Flat(Bundle(t, [Leaf(a), Bundle(u, [Leaf(b)]), Leaf(c)])));
            r == Reading([FromRaw(a, t), FromRaw(b, u), FromRaw(c, t)], Ok)
    ensures ReadPacket(a) == Reading([FromRaw(a, 1)], Ok)
  {
    hide *;
    LeafLists(a);
    InnermostGood(t, u, a, b, c, TIME_IMMEDIATE);
    ReaderMeetsGrammar(a);
    ReaderMeetsGrammar(Flat(Bundle(t, [Leaf(a), Bundle(u, [Leaf(b)]), Leaf(c)])));
    ImmediateIsOne();
  }

  lemma {:induction false} GoodThree(x: Packet, y: Packet, z: Packet, tt: bits64, outer: bits64)
    requires Good(x) && Good(y) && Good(z)
    requires |Flat(x)| < RANGE32 && |Flat(y)| < RANGE32 && |Flat(z)| < RANGE32
    ensures Good(Bundle(tt, [x, y, z])) && Good(Bundle(tt, [x]))
    ensures Listing(Bundle(tt, [x, y, z]), outer) == Listing(x, tt) + Listing(y, tt) + Listing(z, tt)
    ensures Listing(Bundle(tt, [x]), outer) == Listing(x, tt)
  {
    hide *;
    BundleFacts(tt, [x, y, z], outer);
    BundleFacts(tt, [x], outer);
    NoElems();
    assert [x] == [x] + [];
    ConsElems(x, []);
    ConsListing(x, [], tt);
    assert [x, y, z] == [x] + ([y] + ([z] + []));
    ConsElems(z, []);
    ConsElems(y, [z] + []);
    ConsElems(x, [y] + ([z] + []));
    ConsListing(z, [], tt);
    ConsListing(y, [z] + [], tt);
    ConsListing(x, [y] + ([z] + []), tt);
  }

  lemma InnermostGood(t: bits64, u: bits64, a: bytes, b: bytes, c: bytes, outer: bits64)
    requires Good(Leaf(a)) && Good(Leaf(b)) && Good(Leaf(c)) && |a| + |b| + |c| < 0x1000_0000
    ensures var p := Bundle(t, [Leaf(a), Bundle(u, [Leaf(b)]), Leaf(c)]);
            Good(p) && Listing(p, outer) == [FromRaw(a, t), FromRaw(b, u), FromRaw(c, t)]
  {
    LeafLists(a);
    LeafLists(b);
    LeafLists(c);
    hide *;
    RangeIs();
    OneElement(u, Leaf(b));
    GoodThree(Leaf(b), Leaf(b), Leaf(b), u, t);
    GoodThree(Leaf(a), Bundle(u, [Leaf(b)]), Leaf(c), t, outer);
  }

  lemma RangeIs()
    ensures RANGE32 == 0x1_0000_0000
  {
  }

  lemma LeafLists(a: bytes)
    ensures Flat(Leaf(a)) == a && forall tt :: Listing(Leaf(a), tt) == [FromRaw(a, tt)]
  {
    hide FromRaw;
  }

  // ----- the library's own test packets

  const FOO: bytes := [47, 102, 111, 111]
  const HELLO: bytes := [104, 101, 108, 108, 111]
  const LARGER_ARGS: seq<Arg> := [Int32(1000), Int32(-1), Str(HELLO), Float(0x3F9D_F3B6), Float(0x40B5_B22D)]

  const LARGER_MESSAGE: bytes :=
    [47, 102, 111, 111, 0, 0, 0, 0, 44, 105, 105, 115, 102, 102, 0, 0,
     0, 0, 0x03, 0xE8, 0xFF, 0xFF, 0xFF, 0xFF, 104, 101, 108, 108, 111, 0, 0, 0,
     0x3F, 0x9D, 0xF3, 0xB6, 0x40, 0xB5, 0xB2, 0x2D]

  lemma IntWord(i: int32, a: byte, b: byte, c: byte, d: byte)
    requires Big4(a, b, c, d) == if i >= 0 then i else i + 0x1_0000_0000
    ensures Encode(Int32(i)) == [a, b, c, d]
  {
    hide *;
    IntegerBytes(i, 0);
    FourBytes(a, b, c, d);
    ToFromWire(Encode(Int32(i)));
  }

  lemma FloatWord(f: bits32, a: byte, b: byte, c: byte, d: byte)
    requires Big4(a, b, c, d) == f
    ensures Encode(Float(f)) == [a, b, c, d]
  {
    hide Encode, FromWire, ToWire;
    FloatBytes(f, 0);
    FourBytes(a, b, c, d);
    ToFromWire(Encode(Float(f)));
  }

  lemma LargerArgs()
    ensures EncodeArgs(LARGER_ARGS) ==
            [0, 0, 0x03, 0xE8] + [0xFF, 0xFF, 0xFF, 0xFF] + [104, 101, 108, 108, 111, 0, 0, 0]
            + [0x3F, 0x9D, 0xF3, 0xB6] + [0x40, 0xB5, 0xB2, 0x2D]
  {
    LargerWords();
    hide *;
    var a, b, c, d, e := LARGER_ARGS[0], LARGER_ARGS[1], LARGER_ARGS[2], LARGER_ARGS[3], LARGER_ARGS[4];
    ArgsBytes(e, []);
    ArgsBytes(d, [e]);
    ArgsBytes(c, [d, e]);
    ArgsBytes(b, [c, d, e]);
    ArgsBytes(a, [b, c, d, e]);
    FiveOf(a, b, c, d, e);
    Joined(Encode(a), Encode(b), Encode(c), Encode(d), Encode(e));
  }

  lemma LargerWords()
    ensures |LARGER_ARGS| == 5
    ensures LARGER_ARGS == [LARGER_ARGS[0], LARGER_ARGS[1], LARGER_ARGS[2], LARGER_ARGS[3], LARGER_ARGS[4]]
    ensures Encode(LARGER_ARGS[0]) == [0, 0, 0x03, 0xE8] && Encode(LARGER_ARGS[1]) == [0xFF, 0xFF, 0xFF, 0xFF]
    ensures Encode(LARGER_ARGS[2]) == [104, 101, 108, 108, 111, 0, 0, 0]
    ensures Encode(LARGER_ARGS[3]) == [0x3F, 0x9D, 0xF3, 0xB6] && Encode(LARGER_ARGS[4]) == [0x40, 0xB5, 0xB2, 0x2D]
  {
    IntWord(1000, 0, 0, 0x03, 0xE8);
    IntWord(-1, 0xFF, 0xFF, 0xFF, 0xFF);
    FloatWord(0x3F9D_F3B6, 0x3F, 0x9D, 0xF3, 0xB6);
    FloatWord(0x40B5_B22D, 0x40, 0xB5, 0xB2, 0x2D);
    HelloBytes();
    hide Encode;
  }

  lemma {:induction false} HelloBytes()
    ensures Encode(Str(HELLO)) == [104, 101, 108, 108, 111, 0, 0, 0]
  {
    StringBytes(HELLO, []);
    hide EncodeStr, Encode;
    assert Zeros(3) == [0, 0, 0];
  }

  lemma FiveOf<T>(a: T, b: T, c: T, d: T, e: T)
    ensures [a, b, c, d, e] == [a] + [b, c, d, e] && [b, c, d, e] == [b] + [c, d, e]
    ensures [c, d, e] == [c] + [d, e] && [d, e] == [d] + [e] && [e] == [e] + []
  {
  }

  lemma Joined(a: bytes, b: bytes, c: bytes, d: bytes, e: bytes)
    ensures a + (b + (c + (d + (e + [])))) == a + b + c + d + e
  {
  }

  lemma LargerIsSendable()
    ensures Sendable(FOO, LARGER_ARGS) && Tags(LARGER_ARGS) == [105, 105, 115, 102, 102]
    ensures |LARGER_MESSAGE| == 40
  {
  }

  lemma {:induction false} FooBytes()
    ensures EncodeStr(FOO) == [47, 102, 111, 111, 0, 0, 0, 0]
  {
    StringBytes(FOO, []);
    hide EncodeStr, Encode;
    assert Zeros(4) == [0, 0, 0, 0];
  }

  lemma {:induction false} TagsBytes()
    ensures EncodeStr([44] + Tags(LARGER_ARGS)) == [44, 105, 105, 115, 102, 102, 0, 0]
  {
    LargerIsSendable();
    var tags: bytes := [44, 105, 105, 115, 102, 102];
    StringBytes(tags, []);
    hide EncodeStr, Encode, Tags, Sendable;
    assert [44] + Tags(LARGER_ARGS) == tags;
    assert Zeros(2) == [0, 0];
  }

  lemma LargerParts()
    ensures [47, 102, 111, 111, 0, 0, 0, 0] + [44, 105, 105, 115, 102, 102, 0, 0] +
            ([0, 0, 0x03, 0xE8] + [0xFF, 0xFF, 0xFF, 0xFF] + [104, 101, 108, 108, 111, 0, 0, 0]
             + [0x3F, 0x9D, 0xF3, 0xB6] + [0x40, 0xB5, 0xB2, 0x2D]) == LARGER_MESSAGE
  {
  }

  lemma LargerMessageBytes()
    ensures EncodeMessage(FOO, LARGER_ARGS) == LARGER_MESSAGE
  {
    hide *;
    MessageBytes(FOO, LARGER_ARGS);
    FooBytes();
    TagsBytes();
    LargerArgs();
    LargerParts();
  }

  lemma ThreeCalls(w: Written, a: Call, b: Call, c: Call)
    ensures ApplyAll(w, [a, b, c]) == Apply(Apply(Apply(w, a), b), c)
  {
    hide *;
    assert [a, b, c] == [a] + [b] + [c];
    ApplyConcat(w, [a] + [b], [c]);
    ApplyConcat(w, [a], [b]);
    ApplyOne(w, a);
    ApplyOne(Apply(w, a), b);
    ApplyOne(Apply(Apply(w, a), b), c);
  }

  lemma BundleOfOne(tt: bits64, raw: bytes)
    requires raw != []
    ensures Calls(Bundle(tt, [Leaf(raw)])) == [Start(tt), Add(raw), End] && Writable(Bundle(tt, [Leaf(raw)]))
    ensures Flat(Leaf(raw)) == raw
  {
    assert [Leaf(raw)][1..] == [] && CallsElems([]) == [] && WritableElems([]);
    assert CallsElems([Leaf(raw)]) == Calls(Leaf(raw)) + [];
  }

  lemma NestedCalls(tt: bits64)
    ensures var p := Bundle(tt, [Bundle(tt, [Nothing])]);
            Calls(p) == [Start(tt), Start(tt), End] + [End] && Writable(p)
  {
    var inner := Bundle(tt, [Nothing]);
    EmptyElement();
    assert Calls(inner) == [Start(tt), End];
    assert [inner][1..] == [] && CallsElems([]) == [] && WritableElems([]);
    assert CallsElems([inner]) == Calls(inner) + [];
  }

  lemma LargerRun(w: PacketWriter, tt: bits64, call: Call)
    requires tt == 1 && call == Add(LARGER_MESSAGE)
    requires w.Valid() && w.written == Apply(Apply(Apply(INITIAL, Start(tt)), call), End)
    ensures w.PacketData() == Some(BUNDLE_START + [0, 0, 0, 40] + LARGER_MESSAGE) && w.PacketSize() == 60
  {
    hide *;
    var p := Bundle(tt, [Leaf(LARGER_MESSAGE)]);
    LargerIsSendable();
    BundleOfOne(tt, LARGER_MESSAGE);
    ThreeCalls(INITIAL, Start(tt), call, End);
    WriterHolds(w, p);
    ShortBundle(tt, Leaf(LARGER_MESSAGE), 40);
    SizeOfData(w);
  }

  lemma SizeOfData(w: PacketWriter)
    ensures w.PacketData().Some? && |w.PacketData().value| < 0x1_0000_0000 ==> w.PacketSize() == |w.PacketData().value|
  {
  }

  lemma LargerList()
    ensures [] + [Int32(1000)] + [Int32(-1)] + [Str(CStr(HELLO))] + [Float(0x3F9D_F3B6)] + [Float(0x40B5_B22D)] ==
            LARGER_ARGS
    ensures 0 !in HELLO && |HELLO| == 5 && FOO[0] == 47
  {
    CStrSame(HELLO);
  }

  method LargerMessage() returns (msg: Message)
    ensures fresh(msg) && fresh(msg.storage)
    ensures msg.Built() && msg.address == FOO && msg.args == LARGER_ARGS
  {
    hide Tags, Holds, EncodeArgs, Encode, Aligned, CStr, CopiedStr;
    hide LARGER_ARGS;
    LargerList();
    msg := new Message();
    msg.Init(FOO, 1);
    msg.PushInt32(1000);
    msg.PushInt32(-1);
    msg.PushStr(HELLO);
    msg.PushFloat(0x3F9D_F3B6);
    msg.PushFloat(0x40B5_B22D);
  }

  /** The larger message of the library's tests, built call by call, is byte for byte what the test expects. */
  method BuildLarger() returns (w: PacketWriter)
    ensures w.PacketData() == Some(BUNDLE_START + [0, 0, 0, 40] + LARGER_MESSAGE) && w.PacketSize() == 60
  {
    hide Apply, Tags, Holds, EncodeArgs, Encode, EncodeMessage, Aligned, Represents, MessageCall, Packed;
    hide PacketWriter.PacketData, PacketWriter.PacketSize, Sendable, Message.State, LARGER_ARGS, LARGER_MESSAGE;
    LargerIsSendable();
    LargerMessageBytes();
    w := new PacketWriter();
    w.StartBundle(1);
    var msg := LargerMessage();
    BuiltMessageCall(msg);
    ghost var call := MessageCall(msg.State());
    w.AddMessage(msg);
    w.EndBundle();
    LargerRun(w, 1, call);
  }

  /** Two nested empty bundles, as in the library's tests: forty bytes, which are read as no message and no error. */
  method BuildNested() returns (w: PacketWriter, r: PacketReader, m: Message?)
    ensures w.PacketData() == Some(BUNDLE_START + [0, 0, 0, 20] + (BUNDLE_START + [0, 0, 0, 0])) && w.PacketSize() == 40
    ensures r.err == Ok && m == null
  {
    hide Apply, Represents, PacketWriter.PacketData, PacketWriter.PacketSize, ReadPacket, Stands;
    w := new PacketWriter();
    w.StartBundle(1);
    w.StartBundle(1);
    w.EndBundle();
    w.EndBundle();
    NestedRun(w, 1);
    var data := w.PacketData();
    r := new PacketReader();
    r.Init(data.value);
    StandsLength(r.messages, []);
    m := r.PopMessage();
  }

  lemma NestedRun(w: PacketWriter, tt: bits64)
    requires tt == 1 && w.Valid()
    requires w.written == Apply(Apply(Apply(Apply(INITIAL, Start(tt)), Start(tt)), End), End)
    ensures w.PacketData() == Some(BUNDLE_START + [0, 0, 0, 20] + (BUNDLE_START + [0, 0, 0, 0])) && w.PacketSize() == 40
    ensures ReadPacket(w.PacketData().value) == Reading([], Ok)
  {
    hide *;
    var p := Bundle(tt, [Bundle(tt, [Nothing])]);
    NestedCalls(tt);
    ThreeCalls(INITIAL, Start(tt), Start(tt), End);
    ApplyConcat(INITIAL, [Start(tt), Start(tt), End], [End]);
    ApplyOne(ApplyAll(INITIAL, [Start(tt), Start(tt), End]), End);
    WriterHolds(w, p);
    EmptyBundlesFlat(tt);
    SizeOfData(w);
    NestedIsGood(tt);
    ReaderMeetsGrammar(Flat(p));
  }

  lemma NestedIsGood(tt: bits64)
    requires tt == 1
    ensures var p := Bundle(tt, [Bundle(tt, [Nothing])]); Good(p) && Listing(p, TIME_IMMEDIATE) == []
  {
    EmptyBundlesFlat(tt);
    NothingBytes();
    hide Flat;
    var inner := Bundle(tt, [Nothing]);
    assert [Nothing][1..] == [] && [inner][1..] == [] && GoodElems([]) && ListingElems([], tt) == [];
    assert GoodElems([Nothing]) && Good(inner) && |Flat(inner)| == 20 && GoodElems([inner]);
    assert ListingElems([Nothing], tt) == [] && ListingElems([inner], tt) == [];
  }
}
