/**
 Which error a message or a packet is refused with.
 */
module ErrorLaws {
  import opened Bytes
  import opened MessageFormat
  import opened MessageLaws
  import opened Messages
  import opened PacketFormat

  // ----- messages

  /** The bytes start with a padded address. */
  ghost predicate StartsWithAddress(d: bytes) {
    exists address :: IsAddress(address) && EncodeStr(address) <= d
  }

  /** The bytes start with a padded address and padded type tags. */
  ghost predicate StartsWithHeader(d: bytes) {
    exists address, tags :: IsAddress(address) && 0 !in tags && EncodeStr(address) + EncodeStr([44] + tags) <= d
  }

  predicate IsAddress(address: bytes) {
    address != [] && address[0] == 47 && 0 !in address
  }

  lemma Codes()
    ensures NUL == 0 && ADDRESS_START == 47 && TAGS_START == 44
  {
  }

  lemma AddressThere(d: bytes)
    ensures FieldEnd(d, 0).Some? && d[0] == 47 <==> StartsWithAddress(d)
  {
    hide *;
    Codes();
    StartIs(d);
    if FieldEnd(d, 0).Some? && d[0] == 47 {
      AlignedZero();
      FieldWritten(d, 0);
      FieldExtent(d, 0);
      var a := FieldEnd(d, 0).value;
      NotEmpty(d, a);
      AddressIs(d[0..a]);
      assert d[0..Ceil4(a + 1)] <= d;
    }
    if StartsWithAddress(d) {
      var address :| IsAddress(address) && EncodeStr(address) <= d;
      AddressIs(address);
      AddressFound(d, address);
    }
  }

  lemma StartIs(d: bytes)
    ensures StartsWithAddress(d) <==> exists address :: IsAddress(address) && EncodeStr(address) <= d
    ensures StartsWithHeader(d) <==>
            exists address, tags :: IsAddress(address) && 0 !in tags && EncodeStr(address) + EncodeStr([44] + tags) <= d
  {
    hide IsAddress, EncodeStr;
  }

  lemma AddressIs(address: bytes)
    ensures IsAddress(address) <==> address != [] && address[0] == 47 && 0 !in address
  {
  }

  lemma NotEmpty(d: bytes, a: nat)
    requires a < |d| && d[0] == 47 && d[a] == 0
    ensures a > 0 && d[0..a] != [] && d[0..a][0] == 47
  {
  }

  lemma TagsThere(d: bytes)
    requires FieldEnd(d, 0).Some? && d[0] == 47
    ensures var t := Ceil4(FieldEnd(d, 0).value + 1);
            FieldEnd(d, t).Some? && d[t] == 44 ==> StartsWithHeader(d)
  {
    hide *;
    Codes();
    StartIs(d);
    AlignedZero();
    FieldWritten(d, 0);
    FieldExtent(d, 0);
    var a := FieldEnd(d, 0).value;
    var t := Ceil4(a + 1);
    NotEmpty(d, a);
    AddressIs(d[0..a]);
    if FieldEnd(d, t).Some? && d[t] == 44 {
      CeilAligned(a + 1);
      FieldWritten(d, t);
      FieldExtent(d, t);
      var e := FieldEnd(d, t).value;
      var tags := d[t..e][1..];
      SliceStart(d, t, e);
      HeadAndTail(d[t..e], 44);
      TwoSlices(d, t, Ceil4(e + 1));
    }
  }

  lemma SliceStart(d: bytes, t: nat, e: nat)
    requires t <= e < |d| && d[t] != 0 && d[e] == 0
    ensures d[t..e] != [] && d[t..e][0] == d[t]
  {
  }

  lemma HeadAndTail(x: bytes, first: byte)
    requires x != [] && x[0] == first && 0 !in x
    ensures x == [first] + x[1..] && 0 !in x[1..]
  {
  }

  lemma TwoSlices(d: bytes, t: nat, e: nat)
    requires t <= e <= |d|
    ensures d[0..t] + d[t..e] <= d
  {
    assert d[0..t] + d[t..e] == d[..e];
  }

  lemma CeilAligned(n: nat)
    ensures Aligned(Ceil4(n))
  {
  }

  /** The first unknown type tag, after arguments that are well formed. */
  predicate UnknownAt(d: bytes, tags: bytes, p: nat, k: nat) {
    k < |tags| && !KnownTag(tags[k]) && ScanArgs(d, tags[..k], p).err == Ok
  }

  lemma UnknownFirst(d: bytes, tags: bytes, p: nat)
    requires tags != []
    ensures UnknownAt(d, tags, p, 0) <==> !KnownTag(tags[0])
  {
    assert tags[..0] == [];
  }

  lemma UnknownLater(d: bytes, tags: bytes, p: nat, k: nat)
    requires tags != [] && k > 0
    ensures ArgSize(d, tags[0], p).Fails? ==> !UnknownAt(d, tags, p, k)
    ensures ArgSize(d, tags[0], p).Fits? ==>
              (UnknownAt(d, tags, p, k) <==> UnknownAt(d, tags[1..], p + Ceil4(ArgSize(d, tags[0], p).size), k - 1))
  {
    hide ArgSize, Ceil4, KnownTag;
    if k < |tags| {
      assert tags[..k][0] == tags[0] && tags[..k][1..] == tags[1..][..k - 1];
    }
  }

  lemma ScanFirst(d: bytes, tags: bytes, p: nat)
    ensures tags == [] ==> ScanArgs(d, tags, p).err == Ok
    ensures tags != [] && ArgSize(d, tags[0], p).Fails? ==> ScanArgs(d, tags, p).err == ArgSize(d, tags[0], p).err
    ensures tags != [] && ArgSize(d, tags[0], p).Fits? ==>
              ScanArgs(d, tags, p).err == ScanArgs(d, tags[1..], p + Ceil4(ArgSize(d, tags[0], p).size)).err
  {
    hide ArgSize, Ceil4;
  }

  /** The errors of the scan over the arguments. */
  lemma {:induction false} ScanErrors(d: bytes, tags: bytes, p: nat)
    ensures ScanArgs(d, tags, p).err in {Ok, MalformedArguments, UnhandledTypeTags}
    ensures ScanArgs(d, tags, p).err == UnhandledTypeTags <==> exists k :: UnknownAt(d, tags, p, k)
    decreases |tags|
  {
    hide *;
    ScanFirst(d, tags, p);
    if tags == [] {
      NoneUnknown(d, p);
    } else {
      TagIsKnown(d, tags[0], p);
      UnknownFirst(d, tags, p);
      forall k: nat | k > 0
        ensures ArgSize(d, tags[0], p).Fails? ==> !UnknownAt(d, tags, p, k)
        ensures ArgSize(d, tags[0], p).Fits? ==>
                  (UnknownAt(d, tags, p, k) <==>
                   UnknownAt(d, tags[1..], p + Ceil4(ArgSize(d, tags[0], p).size), k - 1))
      {
        UnknownLater(d, tags, p, k);
      }
      if ArgSize(d, tags[0], p).Fits? {
        var next := p + Ceil4(ArgSize(d, tags[0], p).size);
        ScanErrors(d, tags[1..], next);
        forall k: nat | UnknownAt(d, tags[1..], next, k) ensures UnknownAt(d, tags, p, k + 1) {
          UnknownLater(d, tags, p, k + 1);
        }
      }
    }
  }

  lemma NoneUnknown(d: bytes, p: nat)
    ensures forall k :: !UnknownAt(d, [], p, k)
  {
  }

  /** The eight type tags that are handled. */
  predicate KnownTag(tag: byte) {
    tag in {84, 70, 105, 104, 102, 100, 115, 98}
  }

  lemma TagIsKnown(d: bytes, tag: byte, p: nat)
    ensures ArgSize(d, tag, p).Fails? ==> ArgSize(d, tag, p).err in {MalformedArguments, UnhandledTypeTags}
    ensures ArgSize(d, tag, p) == Fails(UnhandledTypeTags) <==> !KnownTag(tag)
  {
    hide Checked;
    Checks(d, p);
  }

  lemma Checks(d: bytes, p: nat)
    ensures forall n: nat :: Checked(d, p, n) == Fits(n) || Checked(d, p, n) == Fails(MalformedArguments)
  {
  }

  lemma FinishedErrors(d: bytes, address: bytes, tags: bytes, scan: Scan)
    requires scan.err in {Ok, MalformedArguments, UnhandledTypeTags}
    ensures Finished(d, address, tags, scan).err in {Ok, MalformedArguments, UnhandledTypeTags}
    ensures Finished(d, address, tags, scan).err == UnhandledTypeTags <==> scan.err == UnhandledTypeTags
  {
  }

  /**
   A message is refused for its address exactly when it does not start with a padded address, and for its
   type tags exactly when it does, but no padded type tags follow.
   */
  lemma HeaderErrors(d: bytes)
    ensures ParseMessage(d).err == MalformedAddressPattern <==> !StartsWithAddress(d)
    ensures ParseMessage(d).err == MalformedTypeTags <==> StartsWithAddress(d) && !StartsWithHeader(d)
    ensures ParseMessage(d).err in
            {Ok, MalformedAddressPattern, MalformedTypeTags, MalformedArguments, UnhandledTypeTags}
  {
    hide *;
    Codes();
    ParseCases(d);
    AddressThere(d);
    StartIs(d);
    if FieldEnd(d, 0).Some? && d[0] == 47 {
      TagsThere(d);
      var a := FieldEnd(d, 0).value;
      var t := Ceil4(a + 1);
      if FieldEnd(d, t).Some? && d[t] == 44 {
        var e := FieldEnd(d, t).value;
        var tags := d[t..e][1..];
        ScanErrors(d, tags, Ceil4(e + 1));
        FinishedErrors(d, d[..a], tags, ScanArgs(d, tags, Ceil4(e + 1)));
      }
    }
    if StartsWithHeader(d) {
      var address, tags :| IsAddress(address) && 0 !in tags && EncodeStr(address) + EncodeStr([44] + tags) <= d;
      HeaderOutcome(d, address, tags);
    }
  }

  /** With a good header, the address and the type tags are kept, and only the arguments can be at fault. */
  lemma HeaderOutcome(d: bytes, address: bytes, tags: bytes)
    requires IsAddress(address) && 0 !in tags && EncodeStr(address) + EncodeStr([44] + tags) <= d
    ensures ParseMessage(d).address == address && ParseMessage(d).typeTags == tags
    ensures ParseMessage(d).err in {Ok, MalformedArguments, UnhandledTypeTags}
  {
    hide *;
    Codes();
    AddressIs(address);
    HeaderParses(d, address, tags);
    var p := |EncodeStr(address)| + |EncodeStr([44] + tags)|;
    ScanErrors(d, tags, p);
    FinishedErrors(d, address, tags, ScanArgs(d, tags, p));
    FinishedOk(d, address, tags, ScanArgs(d, tags, p));
    assert EncodeStr(address) + EncodeStr([44] + tags) <= d ==> StartsWithHeader(d) by { StartIs(d); }
  }

  /**
   It is refused for an unhandled type exactly when the arguments before the first unknown type tag are well
   formed; all other faults of the arguments are malformed arguments.
   */
  lemma UnhandledTypeError(d: bytes, address: bytes, tags: bytes)
    requires IsAddress(address) && 0 !in tags && EncodeStr(address) + EncodeStr([44] + tags) <= d
    ensures var p := |EncodeStr(address)| + |EncodeStr([44] + tags)|;
            ParseMessage(d).err == UnhandledTypeTags <==> exists k :: UnknownAt(d, tags, p, k)
  {
    hide *;
    Codes();
    AddressIs(address);
    HeaderParses(d, address, tags);
    var p := |EncodeStr(address)| + |EncodeStr([44] + tags)|;
    ScanErrors(d, tags, p);
    FinishedErrors(d, address, tags, ScanArgs(d, tags, p));
  }

  /** The slots of a scan are those of the arguments before the first that is not well formed. */
  lemma {:induction false} ScanSlots(d: bytes, tags: bytes, p: nat)
    ensures var scan := ScanArgs(d, tags, p);
            var k := |scan.slots|;
            && k <= |tags| && ScanArgs(d, tags[..k], p).err == Ok && ScanArgs(d, tags[..k], p).slots == scan.slots
            && (k < |tags| ==> ScanArgs(d, tags[..k + 1], p).err == scan.err != Ok)
    decreases |tags|
  {
    hide *;
    ScanParts(d, tags, p);
    if tags == [] {
      assert tags[..0] == [];
    } else if ArgSize(d, tags[0], p).Fits? {
      var n := ArgSize(d, tags[0], p).size;
      ScanSlots(d, tags[1..], p + Ceil4(n));
      var k := |ScanArgs(d, tags[1..], p + Ceil4(n)).slots|;
      ScanParts(d, tags[..k + 1], p);
      assert tags[..k + 1][0] == tags[0] && tags[..k + 1][1..] == tags[1..][..k];
      if k + 1 < |tags| {
        ScanParts(d, tags[..k + 2], p);
        assert tags[..k + 2][0] == tags[0] && tags[..k + 2][1..] == tags[1..][..k + 1];
      }
    } else {
      ScanParts(d, tags[..1], p);
      ScanParts(d, [], p);
      assert tags[..0] == [] && tags[..1][0] == tags[0];
    }
  }

  lemma ScanParts(d: bytes, tags: bytes, p: nat)
    ensures tags == [] ==> ScanArgs(d, tags, p).err == Ok && ScanArgs(d, tags, p).slots == []
    ensures tags != [] && ArgSize(d, tags[0], p).Fails? ==>
              ScanArgs(d, tags, p).err == ArgSize(d, tags[0], p).err != Ok && ScanArgs(d, tags, p).slots == []
    ensures tags != [] && ArgSize(d, tags[0], p).Fits? ==>
              var n := ArgSize(d, tags[0], p).size;
              var rest := ScanArgs(d, tags[1..], p + Ceil4(n));
              ScanArgs(d, tags, p).err == rest.err && ScanArgs(d, tags, p).slots == [Slot(p, n)] + rest.slots
  {
    hide ArgSize, Ceil4;
    if tags != [] && ArgSize(d, tags[0], p).Fails? {
      FailsIsError(d, tags[0], p);
    }
  }

  lemma FailsIsError(d: bytes, tag: byte, p: nat)
    requires ArgSize(d, tag, p).Fails?
    ensures ArgSize(d, tag, p).err != Ok
  {
  }

  /** A message in error keeps the arguments before the first that is not well formed, and none without a header. */
  lemma ArgumentsKept(d: bytes)
    ensures !StartsWithHeader(d) ==> ParseMessage(d).slots == []
    ensures forall address, tags |
              IsAddress(address) && 0 !in tags && EncodeStr(address) + EncodeStr([44] + tags) <= d ::
              ParseMessage(d).slots == ScanArgs(d, tags, |EncodeStr(address)| + |EncodeStr([44] + tags)|).slots
  {
    hide *;
    Codes();
    ParseCases(d);
    AddressThere(d);
    if FieldEnd(d, 0).Some? && d[0] == 47 {
      TagsThere(d);
    }
    forall address, tags | IsAddress(address) && 0 !in tags && EncodeStr(address) + EncodeStr([44] + tags) <= d
      ensures ParseMessage(d).slots == ScanArgs(d, tags, |EncodeStr(address)| + |EncodeStr([44] + tags)|).slots
    {
      var scan := ScanArgs(d, tags, |EncodeStr(address)| + |EncodeStr([44] + tags)|);
      AddressIs(address);
      HeaderParses(d, address, tags);
      FinishedOk(d, address, tags, scan);
    }
  }

  // ----- packets

  /**
   What the messages and the error of a reading have to do with each other: all messages but the last are
   OK; if the last is not, its error is that of the reading, and else the only error is an invalid bundle.
   */
  predicate Consistent(r: Reading) {
    && (forall i | 0 <= i < |r.msgs| - 1 :: r.msgs[i].err == Ok)
    && if r.msgs != [] && r.msgs[|r.msgs| - 1].err != Ok then r.err == r.msgs[|r.msgs| - 1].err
       else r.err == Ok || r.err == InvalidBundle
  }

  lemma {:induction false} RangeErrors(d: bytes, tt: bits64)
    ensures Consistent(ReadRange(d, tt))
    decreases |d|, 1
  {
    if d != [] && d[0] == HASH && StartsBundle(d) {
      ElemsErrors(d[16..], LongWord(d, 8));
    }
    hide ReadElems, ParseMessage;
  }

  lemma JoinConsistent(a: Reading, b: Reading)
    requires Consistent(a) && Consistent(b) && a.err == Ok
    ensures Consistent(Reading(a.msgs + b.msgs, b.err))
  {
    var msgs := a.msgs + b.msgs;
    forall i | 0 <= i < |msgs| - 1 ensures msgs[i].err == Ok {}
  }

  lemma {:induction false} ElemsErrors(d: bytes, tt: bits64)
    ensures Consistent(ReadElems(d, tt))
    decreases |d|, 0
  {
    if |d| >= 4 && !BadSize(d) {
      var next := 4 + Word(d, 0);
      RangeErrors(d[4..next], tt);
      if ReadRange(d[4..next], tt).err == Ok && next < |d| {
        ElemsErrors(d[next..], tt);
        JoinConsistent(ReadRange(d[4..next], tt), ReadElems(d[next..], tt));
      }
    }
    hide ReadRange, Word;
  }

  /**
   The reader's error is the size of the packet if this is no multiple of 4, the error of the last message
   that it has read if that is not OK, and else that of a bundle, if there is any.
   */
  lemma ReaderErrors(d: bytes)
    ensures ReadPacket(d).err == InvalidPacketSize <==> |d| % 4 != 0
    ensures |d| % 4 == 0 ==> Consistent(ReadPacket(d))
    ensures |d| % 4 != 0 ==> ReadPacket(d).msgs == []
  {
    AlignedMeans(|d|);
    RangeErrors(d, TIME_IMMEDIATE);
    var r := ReadRange(d, TIME_IMMEDIATE);
    if r.msgs != [] {
      LastError(d, TIME_IMMEDIATE);
    }
    hide ReadRange;
  }

  lemma {:induction false} LastError(d: bytes, tt: bits64)
    ensures forall m | m in ReadRange(d, tt).msgs :: m.err != InvalidPacketSize
    decreases |d|, 1
  {
    if d != [] && d[0] == HASH {
      if StartsBundle(d) {
        LastErrorElems(d[16..], LongWord(d, 8));
      }
    } else if d != [] {
      HeaderErrors(d);
    }
    hide ReadElems, ParseMessage;
  }

  lemma {:induction false} LastErrorElems(d: bytes, tt: bits64)
    ensures forall m | m in ReadElems(d, tt).msgs :: m.err != InvalidPacketSize
    decreases |d|, 0
  {
    if |d| >= 4 && !BadSize(d) {
      var next := 4 + Word(d, 0);
      LastError(d[4..next], tt);
      if next < |d| {
        LastErrorElems(d[next..], tt);
      }
    }
    hide ReadRange, Word;
  }
}
