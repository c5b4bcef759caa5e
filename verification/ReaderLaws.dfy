/**
 The reader accepts exactly the packets of the grammar, and reads them completely.
 */
module ReaderLaws {
  import opened Bytes
  import opened Pod
  import opened MessageFormat
  import opened MessageLaws
  import opened Messages
  import opened PacketFormat

  // ----- small facts

  lemma AcceptedStartsWithSlash(raw: bytes)
    requires ParseMessage(raw).err == Ok
    ensures raw != [] && raw[0] == ADDRESS_START
  {
    hide ScanArgs, FieldEnd, Ceil4;
  }

  lemma SizeWordReads(n: nat, rest: bytes)
    requires n < RANGE32
    ensures Word(SizeWord(n) + rest, 0) == n
  {
    Ranges();
    FromToWire(4, n);
    assert (SizeWord(n) + rest)[0..4] == ToWire(4, n);
  }

  lemma HeaderReads(tt: bits64, rest: bytes)
    requires |rest| >= 4
    ensures var d := Header(tt) + rest;
            d != [] && d[0] == HASH && StartsBundle(d) && LongWord(d, 8) == tt && d[16..] == rest
  {
    Ranges();
    FromToWire(8, tt);
    hide ToWire, FromWire;
    var d := Header(tt) + rest;
    assert d[..8] == BUNDLE_TAG;
    assert d[8..16] == ToWire(8, tt);
  }

  lemma {:induction false} GoodIsAligned(p: Packet)
    requires Good(p)
    ensures Aligned(|Flat(p)|)
    decreases p
  {
    hide ParseMessage;
    if p.Bundle? {
      GoodElemsAligned(p.elems);
      AlignedAdd(16, |FlatElems(p.elems)|);
    }
  }

  lemma {:induction false} GoodElemsAligned(es: seq<Packet>)
    requires GoodElems(es)
    ensures Aligned(|FlatElems(es)|)
    decreases es
  {
    hide *;
    if es == [] {
      NoElems();
      AlignedZero();
    } else {
      assert es == [es[0]] + es[1..];
      ConsElems(es[0], es[1..]);
      FourIsAligned();
      GoodIsAligned(es[0]);
      GoodElemsAligned(es[1..]);
      AlignedAdd(4, |Flat(es[0])|);
      AlignedAdd(4 + |Flat(es[0])|, |FlatElems(es[1..])|);
    }
  }

  lemma {:induction false} GoodElemsAreLong(es: seq<Packet>)
    requires es != []
    ensures |FlatElems(es)| >= 4
  {
  }

  // ----- every packet of the grammar is read

  lemma {:induction false} ReadsGood(p: Packet, tt: bits64)
    requires Good(p)
    ensures ReadRange(Flat(p), tt) == Reading(Listing(p, tt), Ok)
    ensures TreeOf(Flat(p)) == p
    decreases p
  {
    match p
    case Nothing =>
    case Leaf(raw) =>
      AcceptedStartsWithSlash(raw);
    case Bundle(t, elems) =>
      GoodElemsAreLong(elems);
      HeaderReads(t, FlatElems(elems));
      ReadsGoodElems(elems, t);
  }

  /** One element in front of others is read first. */
  lemma ReadsFirst(first: bytes, rest: bytes, tt: bits64)
    requires Aligned(|first|) && |first| < RANGE32 && ReadRange(first, tt).err == Ok
    ensures var d := SizeWord(|first|) + first + rest;
            && ReadElems(d, tt) ==
               (if rest == [] then ReadRange(first, tt)
                else Reading(ReadRange(first, tt).msgs + ReadElems(rest, tt).msgs, ReadElems(rest, tt).err))
            && ElemsOf(d) == [TreeOf(first)] + (if rest == [] then [] else ElemsOf(rest))
  {
    var d := SizeWord(|first|) + first + rest;
    assert d == SizeWord(|first|) + (first + rest);
    SizeWordReads(|first|, first + rest);
    var next := 4 + |first|;
    assert d[4..next] == first && d[next..] == rest;
    hide ReadRange, TreeOf, Word, SizeWord;
  }

  lemma ConsListing(e: Packet, es: seq<Packet>, tt: bits64)
    ensures ListingElems([e] + es, tt) == Listing(e, tt) + ListingElems(es, tt)
    ensures es == [] ==> ListingElems(es, tt) == []
  {
    hide Listing;
    assert ([e] + es)[1..] == es;
  }

  lemma {:induction false} ReadsGoodElems(es: seq<Packet>, tt: bits64)
    requires es != [] && GoodElems(es)
    ensures ReadElems(FlatElems(es), tt) == Reading(ListingElems(es, tt), Ok)
    ensures ElemsOf(FlatElems(es)) == es
    decreases es
  {
    hide *;
    assert es == [es[0]] + es[1..];
    ConsElems(es[0], es[1..]);
    ConsListing(es[0], es[1..], tt);
    GoodIsAligned(es[0]);
    ReadsGood(es[0], tt);
    ReadsFirst(Flat(es[0]), FlatElems(es[1..]), tt);
    if es[1..] == [] {
      NoElems();
    } else {
      GoodElemsAreLong(es[1..]);
      ReadsGoodElems(es[1..], tt);
    }
  }

  lemma ConsElems(e: Packet, es: seq<Packet>)
    ensures FlatElems([e] + es) == SizeWord(|Flat(e)|) + Flat(e) + FlatElems(es)
    ensures GoodElems([e] + es) <==> Good(e) && |Flat(e)| < RANGE32 && GoodElems(es)
  {
    hide Flat, Good;
    assert ([e] + es)[1..] == es;
  }

  lemma NoElems()
    ensures FlatElems([]) == [] && GoodElems([])
  {
  }

  // ----- only packets of the grammar are read

  lemma {:induction false} ReadsOnlyGood(d: bytes, tt: bits64)
    requires Aligned(|d|) && ReadRange(d, tt).err == Ok
    ensures Good(TreeOf(d)) && Flat(TreeOf(d)) == d
    decreases |d|, 1
  {
    hide *;
    RangeCases(d, tt);
    if d != [] && d[0] == HASH {
      BundleTree(d);
      ReadsOnlyGoodElems(d[16..], LongWord(d, 8));
      BundleFlat(LongWord(d, 8), ElemsOf(d[16..]));
    }
  }

  lemma BundleFlat(tt: bits64, elems: seq<Packet>)
    ensures Flat(Bundle(tt, elems)) == Header(tt) + FlatElems(elems)
    ensures Good(Bundle(tt, elems)) <==> elems != [] && GoodElems(elems)
  {
    hide Header, FlatElems, GoodElems;
  }

  /** What a range without error is: nothing, a message, or a bundle. */
  lemma RangeCases(d: bytes, tt: bits64)
    requires Aligned(|d|) && ReadRange(d, tt).err == Ok
    ensures d == [] || d[0] != HASH ==> Good(TreeOf(d)) && Flat(TreeOf(d)) == d
    ensures d != [] && d[0] == HASH ==> StartsBundle(d) && ReadElems(d[16..], LongWord(d, 8)).err == Ok
  {
    hide ReadElems, StartsBundle, LongWord, Aligned, ParseMessage, ElemsOf;
    if d != [] && d[0] != HASH {
      assert TreeOf(d) == Leaf(d);
    }
  }

  lemma BundleTree(d: bytes)
    requires Aligned(|d|) && d != [] && d[0] == HASH && StartsBundle(d)
    ensures |d| >= 16 && TreeOf(d) == Bundle(LongWord(d, 8), ElemsOf(d[16..])) && Aligned(|d[16..]|)
    ensures d == Header(LongWord(d, 8)) + d[16..]
  {
    AlignedAdd(16, |d[16..]|);
    ToFromWire(d[8..16]);
    hide ElemsOf, ToWire, FromWire, Aligned;
    assert d == d[..8] + d[8..16] + d[16..];
  }

  lemma FirstSize(d: bytes, tt: bits64)
    requires ReadElems(d, tt).err == Ok
    ensures |d| >= 4 && 4 + Word(d, 0) <= |d| && Aligned(Word(d, 0)) && SizeWord(Word(d, 0)) == d[..4]
  {
    hide ReadRange, Aligned;
    ToFromWire(d[0..4]);
    hide FromWire, ToWire;
    assert d[0..4] == d[..4];
  }

  /** The first element of a bundle that is read without error. */
  lemma FirstElement(d: bytes, tt: bits64)
    requires Aligned(|d|) && ReadElems(d, tt).err == Ok
    ensures |d| >= 4 && 4 + Word(d, 0) <= |d| && Aligned(Word(d, 0)) && SizeWord(Word(d, 0)) == d[..4]
    ensures var next := 4 + Word(d, 0);
            && ReadRange(d[4..next], tt).err == Ok
            && (next < |d| ==> Aligned(|d[next..]|) && ReadElems(d[next..], tt).err == Ok)
            && ElemsOf(d) == [TreeOf(d[4..next])] + (if next == |d| then [] else ElemsOf(d[next..]))
  {
    hide *;
    FirstSize(d, tt);
    FirstStep(d, tt);
    var next := 4 + Word(d, 0);
    FourIsAligned();
    AlignedAdd(4, Word(d, 0));
    AlignedAdd(next, |d[next..]|);
  }

  lemma FirstStep(d: bytes, tt: bits64)
    requires ReadElems(d, tt).err == Ok
    ensures |d| >= 4 && 4 + Word(d, 0) <= |d|
    ensures var next := 4 + Word(d, 0);
            && ReadRange(d[4..next], tt).err == Ok
            && (next < |d| ==> ReadElems(d[next..], tt).err == Ok)
            && ElemsOf(d) == [TreeOf(d[4..next])] + (if next == |d| then [] else ElemsOf(d[next..]))
  {
    hide ReadRange, TreeOf, Word, Aligned;
  }

  lemma {:induction false} ReadsOnlyGoodElems(d: bytes, tt: bits64)
    requires Aligned(|d|) && ReadElems(d, tt).err == Ok
    ensures ElemsOf(d) != [] && GoodElems(ElemsOf(d)) && FlatElems(ElemsOf(d)) == d
    decreases |d|, 0
  {
    hide *;
    FirstElement(d, tt);
    var next := 4 + Word(d, 0);
    ReadsOnlyGood(d[4..next], tt);
    var rest := if next == |d| then [] else ElemsOf(d[next..]);
    if next == |d| {
      NoElems();
    } else {
      ReadsOnlyGoodElems(d[next..], tt);
    }
    ConsElems(TreeOf(d[4..next]), rest);
    assert d == d[..4] + d[4..next] + d[next..];
  }

  // ----- main results

  /**
   The reader is OK exactly on the bytes of a packet of the grammar; it then lists all the messages of
   that packet, in order.
   */
  lemma ReaderMeetsGrammar(d: bytes)
    ensures ReadPacket(d).err == Ok <==> exists p :: Good(p) && Flat(p) == d
    ensures forall p | Good(p) && Flat(p) == d :: ReadPacket(d) == Reading(Listing(p, TIME_IMMEDIATE), Ok)
  {
    forall p | Good(p) && Flat(p) == d ensures ReadPacket(d) == Reading(Listing(p, TIME_IMMEDIATE), Ok) {
      GoodIsAligned(p);
      ReadsGood(p, TIME_IMMEDIATE);
    }
    if ReadPacket(d).err == Ok {
      ReadsOnlyGood(d, TIME_IMMEDIATE);
    }
  }

  /** No two packets of the grammar have the same bytes. */
  lemma PacketIsUnique(p: Packet, q: Packet)
    requires Good(p) && Good(q) && Flat(p) == Flat(q)
    ensures p == q
  {
    ReadsGood(p, TIME_IMMEDIATE);
    ReadsGood(q, TIME_IMMEDIATE);
  }

  // ----- packets of encoded messages

  /** The bytes of a leaf are the encoding of a message. */
  ghost predicate IsEncoding(raw: bytes) {
    exists address, args :: Sendable(address, args) && raw == EncodeMessage(address, args)
  }

  /** The packet grammar with encoded messages for leaves. */
  ghost predicate Encoded(p: Packet)
    decreases p
  {
    match p
    case Nothing => true
    case Leaf(raw) => IsEncoding(raw)
    case Bundle(_, elems) => elems != [] && EncodedElems(elems)
  }

  ghost predicate EncodedElems(es: seq<Packet>)
    decreases es
  {
    es == [] || (Encoded(es[0]) && |Flat(es[0])| < RANGE32 && EncodedElems(es[1..]))
  }

  /** No blob of any message declares the overflowing length. */
  predicate NoOverflow(msgs: seq<MessageState>) {
    forall m | m in msgs :: !DeclaresOverflow(m.data)
  }

  lemma NoOverflowConcat(a: seq<MessageState>, b: seq<MessageState>)
    ensures NoOverflow(a + b) <==> NoOverflow(a) && NoOverflow(b)
  {
    hide DeclaresOverflow;
    assert (forall m | m in a :: m in a + b) && forall m | m in b :: m in a + b;
  }

  lemma EncodingIsGood(raw: bytes, tt: bits64)
    ensures IsEncoding(raw) <==> Good(Leaf(raw)) && NoOverflow(Listing(Leaf(raw), tt))
  {
    AcceptsExactlyTheImage(raw);
    hide ParseMessage, DeclaresOverflow, EncodeMessage, Sendable, Aligned;
    assert Listing(Leaf(raw), tt) == [FromRaw(raw, tt)] && FromRaw(raw, tt).data == raw;
    assert FromRaw(raw, tt) in Listing(Leaf(raw), tt);
  }

  lemma BundleFacts(tt: bits64, elems: seq<Packet>, outer: bits64)
    ensures Good(Bundle(tt, elems)) <==> elems != [] && GoodElems(elems)
    ensures Encoded(Bundle(tt, elems)) <==> elems != [] && EncodedElems(elems)
    ensures Listing(Bundle(tt, elems), outer) == ListingElems(elems, tt)
    ensures Good(Nothing) && Encoded(Nothing) && Listing(Nothing, outer) == []
  {
    hide GoodElems, EncodedElems, ListingElems;
  }

  lemma ConsEncoded(e: Packet, es: seq<Packet>)
    ensures EncodedElems([e] + es) <==> Encoded(e) && |Flat(e)| < RANGE32 && EncodedElems(es)
    ensures EncodedElems([])
  {
    hide Encoded, Flat;
    assert ([e] + es)[1..] == es;
  }

  lemma LeafFacts(raw: bytes)
    ensures Encoded(Leaf(raw)) <==> IsEncoding(raw)
  {
    hide IsEncoding;
  }

  lemma NothingListed(tt: bits64)
    ensures ListingElems([], tt) == [] && NoOverflow([])
  {
  }

  lemma {:induction false} EncodedIsGood(p: Packet, tt: bits64)
    ensures Encoded(p) <==> Good(p) && NoOverflow(Listing(p, tt))
    decreases p
  {
    hide *;
    NothingListed(tt);
    match p
    case Nothing => BundleFacts(tt, [], tt);
    case Leaf(raw) =>
      LeafFacts(raw);
      EncodingIsGood(raw, tt);
    case Bundle(t, elems) =>
      BundleFacts(t, elems, tt);
      EncodedElemsAreGood(elems, t);
  }

  lemma {:induction false} EncodedElemsAreGood(es: seq<Packet>, tt: bits64)
    ensures EncodedElems(es) <==> GoodElems(es) && NoOverflow(ListingElems(es, tt))
    decreases es
  {
    hide *;
    NoElems();
    NothingListed(tt);
    if es == [] {
      ConsEncoded(Nothing, []);
    } else {
      var e, rest := es[0], es[1..];
      assert es == [e] + rest;
      ConsEncoded(e, rest);
      ConsElems(e, rest);
      ConsListing(e, rest, tt);
      NoOverflowConcat(Listing(e, tt), ListingElems(rest, tt));
      EncodedIsGood(e, tt);
      EncodedElemsAreGood(rest, tt);
    }
  }

  /**
   The reader is OK without a blob that declares the overflowing length exactly on the bytes of packets
   whose messages are encodings of addresses and arguments.
   */
  lemma ReaderMeetsEncodings(d: bytes)
    ensures ReadPacket(d).err == Ok && NoOverflow(ReadPacket(d).msgs) <==> exists p :: Encoded(p) && Flat(p) == d
  {
    hide *;
    ReaderMeetsGrammar(d);
    if p :| Encoded(p) && Flat(p) == d {
      EncodedIsGood(p, TIME_IMMEDIATE);
    }
    if ReadPacket(d).err == Ok && NoOverflow(ReadPacket(d).msgs) {
      var p :| Good(p) && Flat(p) == d;
      EncodedIsGood(p, TIME_IMMEDIATE);
    }
  }
}
