/**
 The parser and the encoder of messages are inverse to each other: every encoded message is parsed
 back, and what the parser accepts is an encoded message, with one exception that is spelled out.
 */
module MessageLaws {
  import opened Bytes
  import opened Pod
  import opened MessageFormat

  // ----- one argument

  lemma WireInt(a: Arg)
    ensures a.Int32? ==> FromBits32(ToBits32(a.i)) == a.i && FromWire(Raw(a)) == ToBits32(a.i)
    ensures a.Int64? ==> FromBits64(ToBits64(a.h)) == a.h && FromWire(Raw(a)) == ToBits64(a.h)
    ensures a.Float? ==> FromWire(Raw(a)) == a.f
    ensures a.Double? ==> FromWire(Raw(a)) == a.d
    ensures a.Blob? && |a.b| < RANGE32 ==> FromWire(Raw(a)[..4]) == |a.b|
  {
    Ranges();
    match a
    case Int32(i) => FromToWire(4, ToBits32(i));
    case Int64(h) => FromToWire(8, ToBits64(h));
    case Float(f) => FromToWire(4, f);
    case Double(d) => FromToWire(8, d);
    case Blob(b) =>
      assert Raw(a)[..4] == ToWire(4, |b|);
      if |b| < RANGE32 { FromToWire(4, |b|); }
    case _ =>
  }

  /** Where a padded byte string stands, its bytes and its padding are there to be read. */
  lemma PaddedStands(d: bytes, p: nat, raw: bytes)
    requires Aligned(p)
    requires p + |Pad(raw)| <= |d| && d[p..p + |Pad(raw)|] == Pad(raw)
    ensures d[p..p + |raw|] == raw
    ensures Ceil4(p + |raw|) == p + Ceil4(|raw|) && PaddedAt(d, p + |raw|)
  {
    hide *;
    var n := |raw|;
    Ceil4Shift(p, n);
    PadLength(raw);
    var e := d[p..p + |Pad(raw)|];
    assert d[p..p + n] == e[..n];
    forall k | p + n <= k < Ceil4(p + n) ensures d[k] == 0 {
      assert e[k - p] == d[k];
    }
    PaddedFrom(d, p + n);
  }

  lemma PadLength(raw: bytes)
    ensures |Pad(raw)| == Ceil4(|raw|) && Pad(raw)[..|raw|] == raw
    ensures forall k | |raw| <= k < |Pad(raw)| :: Pad(raw)[k] == 0
  {
    hide Ceil4;
  }

  lemma PaddedFrom(d: bytes, p: nat)
    requires Ceil4(p) <= |d| && forall k | p <= k < Ceil4(p) :: d[k] == 0
    ensures PaddedAt(d, p)
  {
    hide Ceil4;
  }

  lemma PaddedMeans(d: bytes, p: nat)
    ensures PaddedAt(d, p) <==> Ceil4(p) <= |d| && forall k | p <= k < Ceil4(p) :: d[k] == 0
  {
    hide Ceil4;
  }

  /** Bytes whose argument ends where its padding ends are the padding of that argument. */
  lemma PaddingReads(d: bytes, p: nat, n: nat)
    requires Aligned(p) && p + n <= |d| && PaddedAt(d, p + n)
    ensures p + Ceil4(n) <= |d| && d[p..p + Ceil4(n)] == Pad(d[p..p + n])
  {
    hide *;
    Ceil4Shift(p, n);
    PaddedMeans(d, p + n);
    var e := d[p..p + Ceil4(n)];
    PadUnique(e, n);
    assert e[..n] == d[p..p + n];
  }

  lemma NextAligned(p: nat, n: nat)
    requires Aligned(p)
    ensures Aligned(p + Ceil4(n))
  {
    AlignedAdd(p, Ceil4(n));
  }

  lemma StrFits(d: bytes, p: nat, s: bytes)
    requires NUL !in s && p + |s| + 1 <= |d| && d[p..p + |s| + 1] == s + [NUL] && PaddedAt(d, p + |s| + 1)
    ensures ArgSize(d, TAG_STRING, p) == Fits(|s| + 1)
  {
    hide PaddedAt;
    var field := d[p..p + |s| + 1];
    assert field[|s|] == d[p + |s|];
    assert d[p..p + |s|] == field[..|s|];
    FindNul(d, p, s);
  }

  lemma BlobWord(d: bytes, p: nat, b: bytes)
    requires |b| < RANGE32 && p + 4 + |b| <= |d| && d[p..p + 4 + |b|] == ToWire(4, |b|) + b
    ensures Word(d, p) == |b|
  {
    var field := d[p..p + 4 + |b|];
    assert d[p..p + 4] == field[..4] == ToWire(4, |b|);
    Ranges();
    FromToWire(4, |b|);
  }

  lemma BlobFits(d: bytes, p: nat, n: nat)
    requires p + 4 + n <= |d| && n < RANGE32 - 4 && Word(d, p) == n && PaddedAt(d, p + 4 + n)
    ensures ArgSize(d, TAG_BLOB, p) == Fits(4 + n)
  {
    hide PaddedAt, Word;
  }

  /** Where an encoded argument stands, the parser finds its exact size. */
  lemma EncodedArgFits(d: bytes, p: nat, a: Arg)
    requires Aligned(p) && Encodable(a)
    requires p + |Encode(a)| <= |d| && d[p..p + |Encode(a)|] == Encode(a)
    ensures ArgSize(d, TagOf(a), p) == Fits(|Raw(a)|)
  {
    hide FromWire, ToWire, Ceil4, Aligned, Pad, Find, PaddedAt;
    PaddedStands(d, p, Raw(a));
    match a
    case Str(s) => StrFits(d, p, s);
    case Blob(b) =>
      BlobWord(d, p, b);
      BlobFits(d, p, |b|);
    case _ =>
  }

  lemma FindNul(d: bytes, p: nat, s: bytes)
    requires p + |s| < |d| && d[p..p + |s|] == s && NUL !in s && d[p + |s|] == NUL
    ensures Find(d, p, NUL) == p + |s|
  {
    forall k | p <= k < p + |s| ensures d[k] != NUL {
      assert d[k] == s[k - p];
    }
    FindAt(d, p, NUL, p + |s|);
  }

  /** Where an encoded argument stands, it is read back. */
  lemma EncodedArgReads(d: bytes, p: nat, a: Arg)
    requires Aligned(p) && Encodable(a)
    requires p + |Encode(a)| <= |d| && d[p..p + |Encode(a)|] == Encode(a)
    ensures ReadArg(d, TagOf(a), Slot(p, |Raw(a)|)) == a
    ensures SlotHolds(d, Slot(p, |Raw(a)|), a)
  {
    hide *;
    EncodeIs(a);
    PaddedStands(d, p, Raw(a));
    match a
    case True => BoolReads(d, p, a);
    case False => BoolReads(d, p, a);
    case Str(s) => RawStrReads(d, p, s);
    case Blob(b) => RawBlobReads(d, p, b);
    case OverflowBlob => NeverEncodable();
    case _ => RawWordReads(d, p, a);
  }

  lemma EncodeIs(a: Arg)
    ensures Encode(a) == Pad(Raw(a))
  {
  }

  lemma NeverEncodable()
    ensures !Encodable(OverflowBlob)
  {
  }

  lemma BoolReads(d: bytes, p: nat, a: Arg)
    requires a.True? || a.False?
    ensures ReadArg(d, TagOf(a), Slot(p, |Raw(a)|)) == a && SlotHolds(d, Slot(p, |Raw(a)|), a)
  {
  }

  lemma RawStrReads(d: bytes, p: nat, s: bytes)
    requires Encodable(Str(s)) && p + |Raw(Str(s))| <= |d| && d[p..p + |Raw(Str(s))|] == Raw(Str(s))
    ensures var slot := Slot(p, |Raw(Str(s))|); ReadArg(d, TagOf(Str(s)), slot) == Str(s) && SlotHolds(d, slot, Str(s))
  {
    assert Raw(Str(s))[..|s|] == s;
  }

  lemma RawBlobReads(d: bytes, p: nat, b: bytes)
    requires p + |Raw(Blob(b))| <= |d| && d[p..p + |Raw(Blob(b))|] == Raw(Blob(b))
    ensures var slot := Slot(p, |Raw(Blob(b))|);
            ReadArg(d, TagOf(Blob(b)), slot) == Blob(b) && SlotHolds(d, slot, Blob(b))
  {
    hide ToWire, FromWire;
    assert Raw(Blob(b))[4..] == b;
  }

  lemma RawWordReads(d: bytes, p: nat, a: Arg)
    requires a.Int32? || a.Int64? || a.Float? || a.Double?
    requires p + |Raw(a)| <= |d| && d[p..p + |Raw(a)|] == Raw(a)
    ensures ReadArg(d, TagOf(a), Slot(p, |Raw(a)|)) == a && SlotHolds(d, Slot(p, |Raw(a)|), a)
  {
    hide ToWire, FromWire;
    WireInt(a);
  }

  // ----- argument lists

  /** The slots of arguments that are encoded one after the other from `p` on. */
  function SlotsOf(args: seq<Arg>, p: nat): (r: seq<Slot>)
    ensures |r| == |args|
  {
    if args == [] then [] else [Slot(p, |Raw(args[0])|)] + SlotsOf(args[1..], p + |Encode(args[0])|)
  }

  lemma SplitTail(d: bytes, p: nat, first: bytes, rest: bytes)
    requires p <= |d| && d[p..] == first + rest
    ensures p + |first| <= |d| && d[p..p + |first|] == first && d[p + |first|..] == rest
  {
    assert |d[p..]| == |d| - p;
    assert d[p..][..|first|] == first && d[p..][|first|..] == rest;
    assert d[p..p + |first|] == d[p..][..|first|];
  }

  lemma {:induction false} EncodedArgsScan(d: bytes, p: nat, args: seq<Arg>)
    requires Aligned(p) && p <= |d| && d[p..] == EncodeArgs(args)
    requires forall a | a in args :: Encodable(a)
    ensures ScanArgs(d, Tags(args), p) == Scan(Ok, SlotsOf(args, p), |d|)
    decreases |args|
  {
    hide Raw, Encode, ArgSize, Ceil4, Aligned;
    if args != [] {
      SplitTail(d, p, Encode(args[0]), EncodeArgs(args[1..]));
      EncodedArgFits(d, p, args[0]);
      NextAligned(p, |Raw(args[0])|);
      EncodedArgsScan(d, p + |Encode(args[0])|, args[1..]);
      assert Tags(args)[1..] == Tags(args[1..]);
    }
  }

  lemma {:induction false} EncodedArgsHeld(d: bytes, p: nat, args: seq<Arg>)
    requires Aligned(p) && p <= |d| && d[p..] == EncodeArgs(args)
    requires forall a | a in args :: Encodable(a)
    ensures ReadArgs(d, Tags(args), SlotsOf(args, p)) == args
    ensures Holds(d, SlotsOf(args, p), args)
    decreases |args|
  {
    hide Raw, Encode, ReadArg, SlotHolds, Ceil4, Aligned;
    if args != [] {
      var a, q := args[0], p + |Encode(args[0])|;
      SplitTail(d, p, Encode(a), EncodeArgs(args[1..]));
      EncodedArgReads(d, p, a);
      NextAligned(p, |Raw(a)|);
      EncodedArgsHeld(d, q, args[1..]);
      assert Tags(args)[1..] == Tags(args[1..]);
      assert SlotsOf(args, p)[1..] == SlotsOf(args[1..], q);
      forall k | 0 <= k < |args|
        ensures SlotHolds(d, SlotsOf(args, p)[k], args[k])
        ensures ReadArg(d, TagOf(args[k]), SlotsOf(args, p)[k]) == args[k]
      {
        if k > 0 {
          assert ReadArgs(d, Tags(args[1..]), SlotsOf(args[1..], q))[k - 1] == args[1..][k - 1];
        }
      }
    }
  }

  // ----- what the parser accepts is what the encoder makes

  lemma LastByte(d: bytes, p: nat)
    requires p + 4 <= |d|
    ensures Word(d, p) % 256 == d[p + 3]
  {
    var word := d[p..p + 4];
    assert FromWire(word) == FromWire(word[..3]) * 256 + word[3];
  }

  lemma BlobSum(d: bytes, p: nat, n: nat)
    requires ArgSize(d, TAG_BLOB, p) == Fits(n)
    ensures p + 4 <= |d| && n == Add32(4, Word(d, p))
  {
  }

  /** Of the four overflowing length words only one passes the padding check: the others end in a non-zero byte. */
  lemma BlobExtent(d: bytes, p: nat, n: nat)
    requires Aligned(p) && ArgSize(d, TAG_BLOB, p) == Fits(n)
    ensures p + 4 <= |d|
    ensures n >= 4 ==> Word(d, p) == n - 4 < RANGE32 - 4
    ensures n < 4 ==> n == 0 && Word(d, p) == RANGE32 - 4
  {
    hide *;
    BlobSum(d, p, n);
    if 0 < n < 4 {
      PaddingByte(d, p, n);
    }
    LastByte(d, p);
    WrappedSum(Word(d, p), n);
  }

  lemma PaddingByte(d: bytes, p: nat, n: nat)
    requires Aligned(p) && 0 < n < 4 && PaddedAt(d, p + n)
    ensures p + 4 <= |d| && d[p + 3] == 0
  {
    Ceil4Shift(p, n);
  }

  lemma WrappedSum(w: bits32, n: nat)
    requires n == Add32(4, w)
    ensures n < 4 ==> w == RANGE32 - 4 + n && w % 256 == 252 + n
    ensures n >= 4 ==> w == n - 4 && w < RANGE32 - 4
  {
  }

  lemma ReadWord(a: Arg, raw: bytes)
    requires a.Int32? || a.Int64? || a.Float? || a.Double?
    requires a.Int32? ==> |raw| == 4 && FromWire(raw) < RANGE32 && a.i == FromBits32(FromWire(raw))
    requires a.Int64? ==> |raw| == 8 && FromWire(raw) < RANGE64 && a.h == FromBits64(FromWire(raw))
    requires a.Float? ==> |raw| == 4 && a.f == FromWire(raw)
    requires a.Double? ==> |raw| == 8 && a.d == FromWire(raw)
    ensures Raw(a) == raw
  {
    ToFromWire(raw);
  }

  /** A slot holds its argument, whose encoding is what stands there. */
  predicate Decodes(d: bytes, slot: Slot, tag: byte) {
    var a := ReadArg(d, tag, slot);
    && TagOf(a) == tag && SlotHolds(d, slot, a) && slot.pos + Ceil4(slot.size) <= |d|
    && (a == OverflowBlob ==> slot.size == 0)
    && (a != OverflowBlob ==>
          Encodable(a) && |Raw(a)| == slot.size && d[slot.pos..slot.pos + Ceil4(slot.size)] == Encode(a))
  }

  lemma DecodesFrom(d: bytes, p: nat, n: nat, tag: byte, a: Arg)
    requires p + Ceil4(n) <= |d| && d[p..p + Ceil4(n)] == Pad(d[p..p + n])
    requires ReadArg(d, tag, Slot(p, n)) == a && TagOf(a) == tag && Encodable(a) && Raw(a) == d[p..p + n]
    ensures Decodes(d, Slot(p, n), tag)
  {
    hide ReadArg, Pad, ToWire;
  }

  lemma BlobReads(d: bytes, p: nat, n: nat)
    requires 4 <= n && p + n <= |d| && Word(d, p) == n - 4
    ensures var a := Blob(d[p..p + n][4..]);
            Raw(a) == d[p..p + n] && ReadArg(d, TAG_BLOB, Slot(p, n)) == a
  {
    var raw := d[p..p + n];
    assert raw[..4] == d[p..p + 4];
    ToFromWire(raw[..4]);
    hide FromWire, ToWire;
  }

  lemma OverflowDecodes(d: bytes, p: nat)
    requires p <= |d|
    ensures Decodes(d, Slot(p, 0), TAG_BLOB)
  {
    assert d[p..p] == [];
  }

  lemma BlobIsEncodable(d: bytes, p: nat, n: nat)
    requires 4 <= n && p + n <= |d| && Word(d, p) == n - 4 < RANGE32 - 4
    ensures var a := Blob(d[p..p + n][4..]); TagOf(a) == TAG_BLOB && Encodable(a)
  {
  }

  lemma FittingBlob(d: bytes, p: nat, n: nat)
    requires Aligned(p) && ArgSize(d, TAG_BLOB, p) == Fits(n)
    ensures Decodes(d, Slot(p, n), TAG_BLOB)
  {
    hide *;
    BlobExtent(d, p, n);
    if n >= 4 {
      BlobReads(d, p, n);
      BlobIsEncodable(d, p, n);
      PaddingReads(d, p, n);
      DecodesFrom(d, p, n, TAG_BLOB, Blob(d[p..p + n][4..]));
    } else {
      OverflowDecodes(d, p);
    }
  }

  lemma StrExtent(d: bytes, p: nat, n: nat)
    requires ArgSize(d, TAG_STRING, p) == Fits(n)
    ensures 0 < n && p + n <= |d| && d[p + n - 1] == NUL && NUL !in d[p..p + n - 1]
  {
    assert p + n - 1 == Find(d, p, NUL);
  }

  lemma StrReads(d: bytes, p: nat, n: nat)
    requires 0 < n && p + n <= |d| && d[p + n - 1] == NUL && NUL !in d[p..p + n - 1]
    ensures var a := Str(d[p..p + n][..n - 1]);
            && TagOf(a) == TAG_STRING && Encodable(a) && Raw(a) == d[p..p + n]
            && ReadArg(d, TAG_STRING, Slot(p, n)) == a
  {
    var raw := d[p..p + n];
    assert raw[n - 1] == d[p + n - 1] && raw[..n - 1] == d[p..p + n - 1];
    assert raw == raw[..n - 1] + [NUL];
  }

  lemma FittingStr(d: bytes, p: nat, n: nat)
    requires Aligned(p) && ArgSize(d, TAG_STRING, p) == Fits(n)
    ensures Decodes(d, Slot(p, n), TAG_STRING)
  {
    hide *;
    StrExtent(d, p, n);
    StrReads(d, p, n);
    PaddingReads(d, p, n);
    DecodesFrom(d, p, n, TAG_STRING, Str(d[p..p + n][..n - 1]));
  }

  lemma WordExtent(d: bytes, tag: byte, p: nat, n: nat)
    requires ArgSize(d, tag, p) == Fits(n) && tag != TAG_BLOB && tag != TAG_STRING
    ensures ((tag == TAG_TRUE || tag == TAG_FALSE) && n == 0) || ((tag == TAG_INT32 || tag == TAG_FLOAT) && n == 4)
            || ((tag == TAG_INT64 || tag == TAG_DOUBLE) && n == 8)
  {
  }

  lemma WordReads(d: bytes, tag: byte, p: nat, n: nat)
    requires p + n <= |d|
    requires ((tag == TAG_TRUE || tag == TAG_FALSE) && n == 0) || ((tag == TAG_INT32 || tag == TAG_FLOAT) && n == 4)
             || ((tag == TAG_INT64 || tag == TAG_DOUBLE) && n == 8)
    ensures var a := ReadArg(d, tag, Slot(p, n));
            TagOf(a) == tag && Encodable(a) && Raw(a) == d[p..p + n]
  {
    Ranges();
    var raw := d[p..p + n];
    ToFromWire(raw);
    hide FromWire, ToWire;
    if n > 0 {
      ReadWord(ReadArg(d, tag, Slot(p, n)), raw);
    } else {
      assert raw == [];
    }
  }

  /** Where the parser finds an argument, its slot holds it, and its bytes are the argument's encoding. */
  lemma FittingArgDecodes(d: bytes, tag: byte, p: nat, n: nat)
    requires Aligned(p) && ArgSize(d, tag, p) == Fits(n)
    ensures Decodes(d, Slot(p, n), tag)
  {
    hide *;
    if tag == TAG_BLOB {
      FittingBlob(d, p, n);
    } else if tag == TAG_STRING {
      FittingStr(d, p, n);
    } else {
      WordExtent(d, tag, p, n);
      WordReads(d, tag, p, n);
      PaddingReads(d, p, n);
      DecodesFrom(d, p, n, tag, ReadArg(d, tag, Slot(p, n)));
    }
  }

  lemma ScanStep(d: bytes, tags: bytes, p: nat)
    requires tags != [] && ScanArgs(d, tags, p).err == Ok
    ensures ArgSize(d, tags[0], p).Fits?
    ensures var n := ArgSize(d, tags[0], p).size;
            var scan, rest := ScanArgs(d, tags, p), ScanArgs(d, tags[1..], p + Ceil4(n));
            && scan.end == rest.end && rest.err == Ok
            && scan.slots == [Slot(p, n)] + rest.slots
            && ReadArgs(d, tags, scan.slots) == [ReadArg(d, tags[0], Slot(p, n))] + ReadArgs(d, tags[1..], rest.slots)
  {
    hide ArgSize, ReadArg, Ceil4;
  }

  lemma HoldsCons(d: bytes, slot: Slot, a: Arg, slots: seq<Slot>, args: seq<Arg>)
    requires SlotHolds(d, slot, a) && Holds(d, slots, args)
    ensures Holds(d, [slot] + slots, [a] + args)
  {
    hide SlotHolds;
  }

  lemma TagsCons(a: Arg, args: seq<Arg>)
    ensures Tags([a] + args) == [TagOf(a)] + Tags(args)
  {
    hide TagOf;
  }

  lemma EncodeArgsCons(a: Arg, args: seq<Arg>)
    ensures EncodeArgs([a] + args) == Encode(a) + EncodeArgs(args)
  {
    hide Encode;
    assert ([a] + args)[1..] == args;
  }

  lemma DecodesFacts(d: bytes, slot: Slot, tag: byte)
    requires Decodes(d, slot, tag)
    ensures var a := ReadArg(d, tag, slot);
            && TagOf(a) == tag && SlotHolds(d, slot, a) && slot.pos + Ceil4(slot.size) <= |d|
            && (a != OverflowBlob ==> Encodable(a) && d[slot.pos..slot.pos + Ceil4(slot.size)] == Encode(a))
  {
    hide ReadArg, SlotHolds, Encode, Encodable, Ceil4, TagOf;
  }

  lemma ScanNothing(d: bytes, tags: bytes, p: nat)
    requires tags == [] && p <= |d|
    ensures var scan := ScanArgs(d, tags, p);
            var args := ReadArgs(d, tags, scan.slots);
            scan.end == p && args == [] && Tags(args) == [] && Holds(d, scan.slots, args) && d[p..p] == EncodeArgs(args)
  {
  }

  /** A scan that succeeds reads arguments of the requested types, each standing in its slot. */
  lemma {:induction false} ScannedArgsHeld(d: bytes, tags: bytes, p: nat)
    requires Aligned(p) && p <= |d| && ScanArgs(d, tags, p).err == Ok
    ensures var scan := ScanArgs(d, tags, p);
            var args := ReadArgs(d, tags, scan.slots);
            Tags(args) == tags && Holds(d, scan.slots, args) && p <= scan.end <= |d| && Aligned(scan.end)
    decreases |tags|
  {
    hide *;
    if tags == [] {
      ScanNothing(d, tags, p);
    } else {
      ScanStep(d, tags, p);
      var n := ArgSize(d, tags[0], p).size;
      var rest := ScanArgs(d, tags[1..], p + Ceil4(n));
      FittingArgDecodes(d, tags[0], p, n);
      DecodesFacts(d, Slot(p, n), tags[0]);
      NextAligned(p, n);
      ScannedArgsHeld(d, tags[1..], p + Ceil4(n));
      var a, more := ReadArg(d, tags[0], Slot(p, n)), ReadArgs(d, tags[1..], rest.slots);
      HoldsCons(d, Slot(p, n), a, rest.slots, more);
      TagsCons(a, more);
    }
  }

  /** Without an overflowing blob, the bytes scanned are the encoding of the arguments read. */
  lemma {:induction false} ScannedArgsDecode(d: bytes, tags: bytes, p: nat)
    requires Aligned(p) && p <= |d| && ScanArgs(d, tags, p).err == Ok
    requires OverflowBlob !in ReadArgs(d, tags, ScanArgs(d, tags, p).slots)
    ensures p <= ScanArgs(d, tags, p).end <= |d|
    ensures forall a | a in ReadArgs(d, tags, ScanArgs(d, tags, p).slots) :: Encodable(a)
    ensures d[p..ScanArgs(d, tags, p).end] == EncodeArgs(ReadArgs(d, tags, ScanArgs(d, tags, p).slots))
    decreases |tags|
  {
    hide *;
    if tags == [] {
      ScanNothing(d, tags, p);
    } else {
      ScanStep(d, tags, p);
      var n := ArgSize(d, tags[0], p).size;
      var q := p + Ceil4(n);
      var rest := ScanArgs(d, tags[1..], q);
      var a, more := ReadArg(d, tags[0], Slot(p, n)), ReadArgs(d, tags[1..], rest.slots);
      assert a == ([a] + more)[0] && forall b | b in more :: b in [a] + more;
      FittingArgDecodes(d, tags[0], p, n);
      DecodesFacts(d, Slot(p, n), tags[0]);
      NextAligned(p, n);
      ScannedArgsDecode(d, tags[1..], q);
      EncodeArgsCons(a, more);
      assert d[p..rest.end] == d[p..q] + d[q..rest.end];
    }
  }

  // ----- whole messages

  /** A string that was written is found again: its end, its padding, and where the next field starts. */
  lemma FieldFound(d: bytes, p: nat, s: bytes)
    requires Aligned(p) && NUL !in s
    requires p + |EncodeStr(s)| <= |d| && d[p..p + |EncodeStr(s)|] == EncodeStr(s)
    ensures FieldEnd(d, p) == Some(p + |s|) && p + |s| < |d| && d[p..p + |s|] == s
    ensures Ceil4(p + |s| + 1) == p + |EncodeStr(s)|
  {
    hide Ceil4, Aligned, Pad, Find, PaddedAt;
    var raw := s + [NUL];
    PaddedStands(d, p, raw);
    var field := d[p..p + |raw|];
    assert field[|s|] == d[p + |s|] && field[..|s|] == d[p..p + |s|];
    FindNul(d, p, s);
  }

  lemma EncodeStrIs(s: bytes)
    ensures EncodeStr(s) == Pad(s + [NUL]) && |EncodeStr(s)| == Ceil4(|s| + 1)
  {
  }

  lemma FieldExtent(d: bytes, p: nat)
    requires FieldEnd(d, p).Some?
    ensures var q := FieldEnd(d, p).value;
            p <= q < |d| && d[q] == NUL && NUL !in d[p..q] && PaddedAt(d, q + 1)
  {
    hide PaddedAt;
  }

  /** A padded string that is found is one that could have been written. */
  lemma FieldWritten(d: bytes, p: nat)
    requires Aligned(p) && FieldEnd(d, p).Some?
    ensures var q := FieldEnd(d, p).value;
            NUL !in d[p..q] && Ceil4(q + 1) == p + |EncodeStr(d[p..q])| && d[p..Ceil4(q + 1)] == EncodeStr(d[p..q])
  {
    hide *;
    FieldExtent(d, p);
    var q := FieldEnd(d, p).value;
    var n := q + 1 - p;
    PaddingReads(d, p, n);
    Ceil4Shift(p, n);
    assert d[p..p + n] == d[p..q] + [NUL];
    EncodeStrIs(d[p..q]);
  }

  /** The parser, given where the fields of the header end. */
  lemma ParseWithFields(d: bytes, a: nat, t: nat, e: nat, tags: bytes, start: nat)
    requires FieldEnd(d, 0) == Some(a) && d[0] == ADDRESS_START && t == Ceil4(a + 1)
    requires FieldEnd(d, t) == Some(e) && t < e && d[t] == TAGS_START && d[t..e][1..] == tags && start == Ceil4(e + 1)
    ensures ParseMessage(d) == Finished(d, d[..a], tags, ScanArgs(d, tags, start))
  {
    hide ScanArgs, Ceil4, FieldEnd, Finished;
  }

  lemma Fields(d: bytes)
    requires ParseMessage(d).err == Ok
    ensures FieldEnd(d, 0).Some? && d[0] == ADDRESS_START && FieldEnd(d, 0).value > 0
    ensures var t := Ceil4(FieldEnd(d, 0).value + 1);
            FieldEnd(d, t).Some? && t < FieldEnd(d, t).value && d[t] == TAGS_START
  {
    hide ScanArgs, Ceil4, Finished;
  }

  lemma HeaderStart(tags: bytes)
    requires NUL !in tags
    ensures Aligned(0) && NUL !in [TAGS_START] + tags
  {
  }

  lemma TwoFields(d: bytes, a: bytes, t: bytes)
    requires a + t <= d
    ensures d[0..|a|] == a && d[|a|..|a| + |t|] == t
  {
    assert d[..|a| + |t|] == a + t;
  }

  lemma FieldContents(d: bytes, p: nat, first: byte, rest: bytes)
    requires p + 1 + |rest| <= |d| && d[p..p + |[first] + rest|] == [first] + rest
    ensures d[p] == first && d[p..p + |[first] + rest|][1..] == rest
  {
    assert d[p..p + |[first] + rest|][0] == d[p];
  }

  lemma AddressFound(d: bytes, address: bytes)
    requires address != [] && NUL !in address && EncodeStr(address) <= d
    ensures FieldEnd(d, 0) == Some(|address|) && d[0] == address[0] && d[..|address|] == address
    ensures Ceil4(|address| + 1) == |EncodeStr(address)|
  {
    hide *;
    HeaderStart([]);
    assert d[0..|EncodeStr(address)|] == EncodeStr(address);
    FieldFound(d, 0, address);
    assert d[..|address|] == d[0..|address|];
  }

  lemma TagsFound(d: bytes, p: nat, tags: bytes, e: nat)
    requires NUL !in tags && Aligned(p) && e == p + 1 + |tags|
    requires p + |EncodeStr([TAGS_START] + tags)| <= |d|
    requires d[p..p + |EncodeStr([TAGS_START] + tags)|] == EncodeStr([TAGS_START] + tags)
    ensures e < |d| && FieldEnd(d, p) == Some(e) && d[p] == TAGS_START && d[p..e][1..] == tags
    ensures Ceil4(e + 1) == p + |EncodeStr([TAGS_START] + tags)|
  {
    hide *;
    HeaderStart(tags);
    var s := [TAGS_START] + tags;
    FieldFound(d, p, s);
    FieldContents(d, p, TAGS_START, tags);
  }

  /** The address and the type tags are found where they were written. */
  lemma HeaderParses(d: bytes, address: bytes, tags: bytes)
    requires address != [] && address[0] == ADDRESS_START && NUL !in address && NUL !in tags
    requires EncodeStr(address) + EncodeStr([TAGS_START] + tags) <= d
    ensures ParseMessage(d) ==
            Finished(d, address, tags, ScanArgs(d, tags, |EncodeStr(address)| + |EncodeStr([TAGS_START] + tags)|))
  {
    hide *;
    var a := |EncodeStr(address)|;
    var e := a + 1 + |tags|;
    TwoFields(d, EncodeStr(address), EncodeStr([TAGS_START] + tags));
    AddressFound(d, address);
    TagsFound(d, a, tags, e);
    ParseWithFields(d, |address|, a, e, tags, a + |EncodeStr([TAGS_START] + tags)|);
  }

  /** A message whose header is accepted starts with the encoding of that header. */
  lemma HeaderWritten(d: bytes)
    requires ParseMessage(d).err == Ok
    ensures var m := ParseMessage(d);
            var head := EncodeStr(m.address) + EncodeStr([TAGS_START] + m.typeTags);
            && m.address != [] && m.address[0] == ADDRESS_START && NUL !in m.address
            && head <= d && Aligned(|head|)
            && ScanArgs(d, m.typeTags, |head|) == Scan(Ok, m.slots, |d|)
  {
    hide *;
    Fields(d);
    HeaderStart([]);
    var a := FieldEnd(d, 0).value;
    FieldWritten(d, 0);
    var t := Ceil4(a + 1);
    FieldWritten(d, t);
    var e := FieldEnd(d, t).value;
    var tags := d[t..e][1..];
    ParseWithFields(d, a, t, e, tags, Ceil4(e + 1));
    FinishedOk(d, d[..a], tags, ScanArgs(d, tags, Ceil4(e + 1)));
    assert d[..a] == d[0..a] && d[t..e] == [TAGS_START] + tags;
    assert d[..Ceil4(e + 1)] == d[0..t] + d[t..Ceil4(e + 1)];
    AlignedAdd(t, |EncodeStr([TAGS_START] + tags)|);
  }

  lemma RaiseIs(err: ErrorCode, e: ErrorCode)
    ensures Raise(err, e) == if err == Ok then e else err
  {
  }

  /** The three ways in which parsing goes. */
  lemma ParseCases(d: bytes)
    ensures FieldEnd(d, 0).None? || d[0] != ADDRESS_START ==>
              ParseMessage(d) == Parsed(MalformedAddressPattern, [], [], [])
    ensures FieldEnd(d, 0).Some? && d[0] == ADDRESS_START ==>
              var a := FieldEnd(d, 0).value;
              var t := Ceil4(a + 1);
              && (FieldEnd(d, t).None? || d[t] != TAGS_START ==>
                    ParseMessage(d) == Parsed(MalformedTypeTags, d[..a], [], []))
              && (FieldEnd(d, t).Some? && d[t] == TAGS_START ==>
                    var e := FieldEnd(d, t).value;
                    t < e && var tags := d[t..e][1..];
                    ParseMessage(d) == Finished(d, d[..a], tags, ScanArgs(d, tags, Ceil4(e + 1))))
  {
    hide ScanArgs, Ceil4, Finished, PaddedAt;
  }

  lemma FinishedIs(d: bytes, address: bytes, tags: bytes, scan: Scan)
    ensures Finished(d, address, tags, scan) ==
            Parsed(if scan.err == Ok && scan.end != |d| then MalformedArguments else scan.err,
                   address, tags, scan.slots)
  {
  }

  lemma FinishedOk(d: bytes, address: bytes, tags: bytes, scan: Scan)
    ensures Finished(d, address, tags, scan).err == Ok <==> scan.err == Ok && scan.end == |d|
    ensures Finished(d, address, tags, scan).address == address && Finished(d, address, tags, scan).typeTags == tags
    ensures Finished(d, address, tags, scan).slots == scan.slots
  {
  }

  lemma TagsHaveNoNul(args: seq<Arg>)
    ensures NUL !in Tags(args)
  {
  }

  lemma ParsedArgsAre(d: bytes)
    ensures ParsedArgs(d) == ReadArgs(d, ParseMessage(d).typeTags, ParseMessage(d).slots)
  {
  }

  lemma MessageParts(address: bytes, args: seq<Arg>)
    ensures var head := EncodeStr(address) + EncodeStr([TAGS_START] + Tags(args));
            && EncodeMessage(address, args) == head + EncodeArgs(args) && Aligned(|head|)
            && |head| == |EncodeStr(address)| + |EncodeStr([TAGS_START] + Tags(args))|
  {
    hide EncodeStr, EncodeArgs, Aligned;
    AlignedAdd(|EncodeStr(address)|, |EncodeStr([TAGS_START] + Tags(args))|);
  }

  lemma SendableMeans(address: bytes, args: seq<Arg>)
    ensures Sendable(address, args) <==>
            address != [] && address[0] == ADDRESS_START && NUL !in address && forall a | a in args :: Encodable(a)
    ensures Sendable(address, args) ==> OverflowBlob !in args
  {
  }

  /** The parser accepts every encoded message and finds its address, type tags and arguments. */
  lemma EncodedMessageParses(address: bytes, args: seq<Arg>)
    requires Sendable(address, args)
    ensures var d := EncodeMessage(address, args);
            var m := ParseMessage(d);
            && m.err == Ok && m.address == address && m.typeTags == Tags(args)
            && Holds(d, m.slots, args) && ParsedArgs(d) == args
  {
    hide *;
    var d := EncodeMessage(address, args);
    var head := EncodeStr(address) + EncodeStr([TAGS_START] + Tags(args));
    SendableMeans(address, args);
    MessageParts(address, args);
    TagsHaveNoNul(args);
    HeaderParses(d, address, Tags(args));
    assert d[|head|..] == EncodeArgs(args);
    EncodedArgsScan(d, |head|, args);
    EncodedArgsHeld(d, |head|, args);
    FinishedOk(d, address, Tags(args), ScanArgs(d, Tags(args), |head|));
    ParsedArgsAre(d);
  }

  /** Without an overflowing blob, an accepted message is the encoding of what was read from it. */
  lemma AcceptedMessageIsEncoded(d: bytes)
    requires ParseMessage(d).err == Ok && OverflowBlob !in ParsedArgs(d)
    ensures Sendable(ParseMessage(d).address, ParsedArgs(d))
    ensures d == EncodeMessage(ParseMessage(d).address, ParsedArgs(d))
  {
    hide *;
    var m := ParseMessage(d);
    var head := EncodeStr(m.address) + EncodeStr([TAGS_START] + m.typeTags);
    ParsedArgsAre(d);
    HeaderWritten(d);
    ScannedArgsHeld(d, m.typeTags, |head|);
    ScannedArgsDecode(d, m.typeTags, |head|);
    SendableMeans(m.address, ParsedArgs(d));
    MessageParts(m.address, ParsedArgs(d));
    assert d == d[..|head|] + d[|head|..|d|];
  }

  // ----- overflowing blobs, as their declared lengths show them

  /** The length word of the blob at `p` is the largest multiple of 4, to which 4 cannot be added in 32 bits. */
  predicate OverflowAt(d: bytes, tag: byte, p: nat) {
    tag == TAG_BLOB && p + 4 <= |d| && Word(d, p) == RANGE32 - 4
  }

  /** Some blob of a message declares the overflowing length. */
  predicate DeclaresOverflow(d: bytes) {
    var m := ParseMessage(d);
    exists k | 0 <= k < |m.slots| :: OverflowAt(d, m.typeTags[k], m.slots[k].pos)
  }

  lemma OverflowReads(d: bytes, tag: byte, p: nat, n: nat)
    requires Aligned(p) && ArgSize(d, tag, p) == Fits(n)
    ensures ReadArg(d, tag, Slot(p, n)) == OverflowBlob <==> OverflowAt(d, tag, p)
  {
    hide *;
    OverflowAtIs(d, tag, p);
    if tag == TAG_BLOB {
      BlobExtent(d, p, n);
      if n >= 4 {
        BlobSum(d, p, n);
        ArgSizeInside(d, tag, p, n);
        BlobReads(d, p, n);
      } else {
        EmptySlotReads(d, p);
      }
    } else {
      FittingArgDecodes(d, tag, p, n);
      DecodesFacts(d, Slot(p, n), tag);
      OverflowTag();
    }
  }

  lemma OverflowAtIs(d: bytes, tag: byte, p: nat)
    ensures OverflowAt(d, tag, p) <==> tag == TAG_BLOB && p + 4 <= |d| && Word(d, p) == RANGE32 - 4
  {
  }

  lemma ArgSizeInside(d: bytes, tag: byte, p: nat, n: nat)
    requires ArgSize(d, tag, p) == Fits(n)
    ensures p + n <= |d|
  {
  }

  lemma EmptySlotReads(d: bytes, p: nat)
    requires p <= |d|
    ensures ReadArg(d, TAG_BLOB, Slot(p, 0)) == OverflowBlob
  {
  }

  lemma OverflowTag()
    ensures TagOf(OverflowBlob) == TAG_BLOB
  {
  }

  lemma ConsAt<T>(a: seq<T>, b: seq<T>, k: nat)
    requires |a| == 1 && 0 < k <= |b|
    ensures (a + b)[k] == b[k - 1]
  {
  }

  lemma {:induction false} ScannedOverflow(d: bytes, tags: bytes, p: nat, k: nat)
    requires Aligned(p) && p <= |d| && ScanArgs(d, tags, p).err == Ok && k < |tags|
    ensures var slots := ScanArgs(d, tags, p).slots;
            |slots| == |tags| && (ReadArgs(d, tags, slots)[k] == OverflowBlob <==> OverflowAt(d, tags[k], slots[k].pos))
    decreases |tags|
  {
    hide *;
    ScanStep(d, tags, p);
    var n := ArgSize(d, tags[0], p).size;
    var scan, rest := ScanArgs(d, tags, p), ScanArgs(d, tags[1..], p + Ceil4(n));
    if k == 0 {
      OverflowReads(d, tags[0], p, n);
    } else {
      FittingArgDecodes(d, tags[0], p, n);
      DecodesFacts(d, Slot(p, n), tags[0]);
      NextAligned(p, n);
      ScannedOverflow(d, tags[1..], p + Ceil4(n), k - 1);
      ConsAt([Slot(p, n)], rest.slots, k);
      ConsAt([ReadArg(d, tags[0], Slot(p, n))], ReadArgs(d, tags[1..], rest.slots), k);
    }
  }

  /** An accepted message reads as having an overflowing blob exactly when a blob declares the overflowing length. */
  lemma OverflowIsDeclared(d: bytes)
    requires ParseMessage(d).err == Ok
    ensures OverflowBlob in ParsedArgs(d) <==> DeclaresOverflow(d)
  {
    var m := ParseMessage(d);
    hide *;
    ParsedArgsAre(d);
    DeclaresOverflowIs(d);
    HeaderWritten(d);
    var p := |EncodeStr(m.address) + EncodeStr([TAGS_START] + m.typeTags)|;
    forall k | 0 <= k < |m.slots|
      ensures ParsedArgs(d)[k] == OverflowBlob <==> OverflowAt(d, m.typeTags[k], m.slots[k].pos)
    {
      ScannedOverflow(d, m.typeTags, p, k);
    }
  }

  lemma DeclaresOverflowIs(d: bytes)
    ensures var m := ParseMessage(d);
            DeclaresOverflow(d) <==> exists k | 0 <= k < |m.slots| :: OverflowAt(d, m.typeTags[k], m.slots[k].pos)
  {
    hide OverflowAt, ParseMessage;
  }

  /**
   The parser accepts exactly the encoder's image, but for one length word: a buffer is the encoding of
   some message if and only if it is accepted and none of its blobs declares the overflowing length.
   */
  lemma AcceptsExactlyTheImage(d: bytes)
    ensures (exists address, args :: Sendable(address, args) && d == EncodeMessage(address, args)) <==>
            ParseMessage(d).err == Ok && !DeclaresOverflow(d)
  {
    hide *;
    forall address, args | Sendable(address, args) && d == EncodeMessage(address, args)
      ensures ParseMessage(d).err == Ok && !DeclaresOverflow(d)
    {
      EncodedMessageParses(address, args);
      SendableMeans(address, args);
      OverflowIsDeclared(d);
    }
    if ParseMessage(d).err == Ok && !DeclaresOverflow(d) {
      OverflowIsDeclared(d);
      AcceptedMessageIsEncoded(d);
    }
  }

  /** Different messages have different encodings. */
  lemma EncodingIsUnique(address: bytes, args: seq<Arg>, address': bytes, args': seq<Arg>)
    requires Sendable(address, args) && Sendable(address', args')
    requires EncodeMessage(address, args) == EncodeMessage(address', args')
    ensures address == address' && args == args'
  {
    hide *;
    EncodedMessageParses(address, args);
    EncodedMessageParses(address', args');
  }

  /**
   A message that the parser accepts although nothing encodes to it: the blob of `bi` declares 0xFFFFFFFC
   bytes, takes none, and the integer is read from the very same word.
   */
  lemma OverflowIsAccepted(address: bytes)
    requires address != [] && address[0] == ADDRESS_START && NUL !in address
    ensures var d := EncodeStr(address) + EncodeStr([TAGS_START, TAG_BLOB, TAG_INT32]) + [0xFF, 0xFF, 0xFF, 0xFC];
            ParseMessage(d).err == Ok && ParsedArgs(d) == [OverflowBlob, Int32(-4)]
  {
    hide *;
    var tags: bytes := [TAG_BLOB, TAG_INT32];
    var word: bytes := [0xFF, 0xFF, 0xFF, 0xFC];
    var head := EncodeStr(address) + EncodeStr([TAGS_START] + tags);
    var d := head + word;
    var p := |head|;
    assert [TAGS_START] + tags == [TAGS_START, TAG_BLOB, TAG_INT32];
    assert d[p..] == word;
    OverflowWord(word);
    EncodeStrAligned(address);
    EncodeStrAligned([TAGS_START] + tags);
    AlignedAdd(|EncodeStr(address)|, |EncodeStr([TAGS_START] + tags)|);
    OverflowScan(d, p);
    TwoTagsHaveNoNul(tags);
    HeaderParses(d, address, tags);
    FinishedOk(d, address, tags, ScanArgs(d, tags, p));
    ParsedArgsAre(d);
  }

  lemma EncodeStrAligned(s: bytes)
    ensures Aligned(|EncodeStr(s)|)
  {
  }

  lemma TwoTagsHaveNoNul(tags: bytes)
    requires tags == [TAG_BLOB, TAG_INT32]
    ensures NUL !in tags
  {
  }

  lemma FromWireSnoc(d: bytes, b: byte)
    ensures FromWire(d + [b]) == FromWire(d) * 256 + b
  {
    assert (d + [b])[..|d|] == d;
  }

  lemma OverflowWord(word: bytes)
    requires word == [0xFF, 0xFF, 0xFF, 0xFC]
    ensures FromWire(word) == RANGE32 - 4
  {
    FromWireSnoc([], 0xFF);
    FromWireSnoc([0xFF], 0xFF);
    FromWireSnoc([0xFF, 0xFF], 0xFF);
    FromWireSnoc([0xFF, 0xFF, 0xFF], 0xFC);
    assert [0xFF] + [0xFF] == [0xFF, 0xFF];
    assert [0xFF, 0xFF] + [0xFF] == [0xFF, 0xFF, 0xFF];
    assert [0xFF, 0xFF, 0xFF] + [0xFC] == word;
    hide FromWire;
    assert FromWire([]) == 0 by { EmptyWire(); }
  }

  lemma EmptyWire()
    ensures FromWire([]) == 0
  {
  }

  lemma OverflowExtents(d: bytes, p: nat)
    requires Aligned(p) && |d| == p + 4 && FromWire(d[p..]) == RANGE32 - 4
    ensures ArgSize(d, TAG_BLOB, p) == Fits(0) && ReadArg(d, TAG_BLOB, Slot(p, 0)) == OverflowBlob
    ensures ArgSize(d, TAG_INT32, p) == Fits(4) && ReadArg(d, TAG_INT32, Slot(p, 4)) == Int32(-4)
  {
    hide FromWire, Aligned;
    assert d[p..p + 4] == d[p..];
    Ceil4Shift(p, 0);
    Ceil4Shift(p, 4);
  }

  lemma ScanCons(d: bytes, tag: byte, tags: bytes, p: nat, n: nat)
    requires ArgSize(d, tag, p) == Fits(n)
    ensures var scan, rest := ScanArgs(d, [tag] + tags, p), ScanArgs(d, tags, p + Ceil4(n));
            && scan == Scan(rest.err, [Slot(p, n)] + rest.slots, rest.end)
            && ReadArgs(d, [tag] + tags, scan.slots) ==
               [ReadArg(d, tag, Slot(p, n))] + ReadArgs(d, tags, rest.slots)
  {
    hide *;
    assert ([tag] + tags)[1..] == tags;
    ScanUnfolds(d, [tag] + tags, p, n);
    var rest := ScanArgs(d, tags, p + Ceil4(n));
    ReadArgsCons(d, tag, tags, Slot(p, n), rest.slots);
  }

  lemma ScanUnfolds(d: bytes, tags: bytes, p: nat, n: nat)
    requires tags != [] && ArgSize(d, tags[0], p) == Fits(n)
    ensures var rest := ScanArgs(d, tags[1..], p + Ceil4(n));
            ScanArgs(d, tags, p) == Scan(rest.err, [Slot(p, n)] + rest.slots, rest.end)
  {
    hide ArgSize, Ceil4;
  }

  lemma ReadArgsCons(d: bytes, tag: byte, tags: bytes, slot: Slot, slots: seq<Slot>)
    requires |slots| <= |tags|
    ensures ReadArgs(d, [tag] + tags, [slot] + slots) == [ReadArg(d, tag, slot)] + ReadArgs(d, tags, slots)
  {
    hide ReadArg;
  }

  lemma OverflowScan(d: bytes, p: nat)
    requires Aligned(p) && |d| == p + 4 && FromWire(d[p..]) == RANGE32 - 4
    ensures ScanArgs(d, [TAG_BLOB, TAG_INT32], p) == Scan(Ok, [Slot(p, 0), Slot(p, 4)], |d|)
    ensures ReadArgs(d, [TAG_BLOB, TAG_INT32], [Slot(p, 0), Slot(p, 4)]) == [OverflowBlob, Int32(-4)]
  {
    hide *;
    OverflowExtents(d, p);
    assert Ceil4(0) == 0 && Ceil4(4) == 4 by { SmallCeil4(); }
    ScanNothing(d, [], p + 4);
    ScanEmptyOk(d, p + 4);
    ScanCons(d, TAG_INT32, [], p, 4);
    ScanCons(d, TAG_BLOB, [TAG_INT32], p, 0);
    assert [TAG_BLOB] + [TAG_INT32] == [TAG_BLOB, TAG_INT32] && [TAG_INT32] + [] == [TAG_INT32];
    assert [Slot(p, 0)] + [Slot(p, 4)] == [Slot(p, 0), Slot(p, 4)];
  }

  lemma SmallCeil4()
    ensures Ceil4(0) == 0 && Ceil4(4) == 4
  {
  }

  lemma ScanEmptyOk(d: bytes, p: nat)
    ensures ScanArgs(d, [], p) == Scan(Ok, [], p) && ReadArgs(d, [], []) == []
  {
  }
}
