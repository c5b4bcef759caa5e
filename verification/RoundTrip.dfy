/**
 The packet round trip: from balanced writer calls over well-formed messages, through the bytes, to the
 messages that the reader returns; and the message round trips.
 */
module RoundTrip {
  import opened Bytes
  import opened Pod
  import opened MessageFormat
  import opened MessageLaws
  import opened Messages
  import opened Pops
  import opened PacketFormat
  import opened ReaderLaws
  import opened WriterFormat
  import opened WriterRuns
  import opened Packets

  /** A message as its sender knows it. */
  datatype Note = Note(timeTag: bits64, address: bytes, args: seq<Arg>)

  /** The messages of a packet as bytes, each with the time tag of the innermost bundle around it. */
  function Leaves(p: Packet, tt: bits64): seq<(bits64, bytes)>
    decreases p
  {
    match p
    case Nothing => []
    case Leaf(raw) => [(tt, raw)]
    case Bundle(t, elems) => LeavesOf(elems, t)
  }

  function LeavesOf(es: seq<Packet>, tt: bits64): seq<(bits64, bytes)>
    decreases es
  {
    if es == [] then [] else Leaves(es[0], tt) + LeavesOf(es[1..], tt)
  }

  /** A leaf is the encoding of a well-formed message. */
  predicate Sends(leaf: (bits64, bytes), n: Note) {
    leaf.0 == n.timeTag && Sendable(n.address, n.args) && leaf.1 == EncodeMessage(n.address, n.args)
  }

  /** A received message is the one that was sent: time tag, address, types, and the value in every slot. */
  predicate Delivers(m: MessageState, n: Note) {
    && m.err == Ok && m.timeTag == n.timeTag && m.address == n.address
    && m.typeTags == Tags(n.args) && Holds(m.data, m.slots, n.args) && ParsedArgs(m.data) == n.args
  }

  predicate Parses(leaf: (bits64, bytes)) {
    Aligned(|leaf.1|) && ParseMessage(leaf.1).err == Ok
  }

  lemma {:induction false} ListingOfLeaves(p: Packet, tt: bits64)
    ensures |Listing(p, tt)| == |Leaves(p, tt)|
    ensures forall i | 0 <= i < |Leaves(p, tt)| :: Listing(p, tt)[i] == FromRaw(Leaves(p, tt)[i].1, Leaves(p, tt)[i].0)
    decreases p
  {
    hide FromRaw;
    if p.Bundle? {
      ListingOfLeavesOf(p.elems, p.tt);
    }
  }

  lemma {:induction false} ListingOfLeavesOf(es: seq<Packet>, tt: bits64)
    ensures |ListingElems(es, tt)| == |LeavesOf(es, tt)|
    ensures forall i | 0 <= i < |LeavesOf(es, tt)| ::
              ListingElems(es, tt)[i] == FromRaw(LeavesOf(es, tt)[i].1, LeavesOf(es, tt)[i].0)
    decreases es
  {
    hide FromRaw;
    if es != [] {
      ListingOfLeaves(es[0], tt);
      ListingOfLeavesOf(es[1..], tt);
    }
  }

  lemma {:induction false} WritableIsGood(p: Packet, tt: bits64)
    requires Writable(p) && |Flat(p)| < RANGE32
    requires forall l | l in Leaves(p, tt) :: Parses(l)
    ensures Good(p)
    decreases p
  {
    hide ParseMessage;
    match p
    case Nothing =>
    case Leaf(raw) =>
      assert Parses((tt, raw));
    case Bundle(t, elems) =>
      if elems == [Nothing] {
        assert elems[0] == Nothing && elems[1..] == [];
        assert Good(Nothing) && |Flat(Nothing)| == 0 && GoodElems([]);
        assert GoodElems(elems);
      } else {
        WritableElemsAreGood(elems, t);
      }
  }

  lemma {:induction false} WritableElemsAreGood(es: seq<Packet>, tt: bits64)
    requires WritableElems(es) && |FlatElems(es)| < RANGE32
    requires forall l | l in LeavesOf(es, tt) :: Parses(l)
    ensures GoodElems(es)
    decreases es
  {
    hide ParseMessage, Parses;
    if es != [] {
      WritableIsGood(es[0], tt);
      WritableElemsAreGood(es[1..], tt);
    }
  }

  lemma SentParses(leaf: (bits64, bytes), n: Note)
    requires Sends(leaf, n)
    ensures Parses(leaf) && Delivers(FromRaw(leaf.1, leaf.0), n)
  {
    EncodedMessageParses(n.address, n.args);
    hide ParseMessage, EncodeMessage, Holds, Tags, Sendable, ParsedArgs;
  }

  /**
   Packet round trip: the calls of a writable packet whose messages are encodings of well-formed messages
   leave exactly the packet's recursive encoding in the storage; the reader is OK on it and returns those
   messages, in order, with the time tag of the innermost bundle around each (immediate outside bundles).
   */
  lemma PacketRoundTrip(p: Packet, notes: seq<Note>)
    requires Writable(p) && |Flat(p)| < RANGE32
    requires |notes| == |Leaves(p, TIME_IMMEDIATE)|
    requires forall i | 0 <= i < |notes| :: Sends(Leaves(p, TIME_IMMEDIATE)[i], notes[i])
    ensures var w := ApplyAll(INITIAL, Calls(p));
            w.err == Ok && w.open == [] && FlatWritten(w) == Flat(p)
    ensures var r := ReadPacket(Flat(p));
            r.err == Ok && |r.msgs| == |notes| && forall i | 0 <= i < |notes| :: Delivers(r.msgs[i], notes[i])
  {
    CallsBuild(INITIAL, p);
    OneDone(p);
    assert [] + [p] == [p];
    hide *;
    var leaves := Leaves(p, TIME_IMMEDIATE);
    forall i | 0 <= i < |notes| ensures Parses(leaves[i]) && Delivers(FromRaw(leaves[i].1, leaves[i].0), notes[i]) {
      SentParses(leaves[i], notes[i]);
    }
    assert forall l | l in leaves :: Parses(l);
    WritableIsGood(p, TIME_IMMEDIATE);
    ReaderMeetsGrammar(Flat(p));
    ListingOfLeaves(p, TIME_IMMEDIATE);
  }

  // ----- the same on the objects

  /** A message object that was built by pushing is, as a writer call, its encoding. */
  lemma BuiltMessageCall(m: Message)
    requires m.Built() && Sendable(m.address, m.args)
    ensures MessageCall(m.State()) == Add(EncodeMessage(m.address, m.args))
  {
    BuiltMessagePacks(m.address, m.args);
    hide Packed, EncodeMessage, EncodeArgs, Tags, Holds;
  }

  lemma WriterHolds(w: PacketWriter, p: Packet)
    requires w.Valid() && Writable(p) && w.written == ApplyAll(INITIAL, Calls(p))
    ensures w.PacketData() == Some(Flat(p))
  {
    CallsBuild(INITIAL, p);
    OneDone(p);
    assert [] + [p] == [p];
    RepresentsMeans(w.storage.data, w.bundles, w.err, w.written);
    hide FlatWritten, Flat, ApplyAll, Calls;
  }

  /**
   After any calls, the writer hands out the bytes built, or nothing, and the size zero, if some call was out
   of order.
   */
  lemma DataIffInOrder(w: PacketWriter, cs: seq<Call>)
    requires w.Valid() && (forall c | c in cs :: Sound(c)) && w.written == ApplyAll(INITIAL, cs)
    ensures w.PacketData().Some? <==> forall k | 0 <= k < |cs| :: InOrder(cs, k)
    ensures w.PacketData().Some? ==> w.PacketData().value == FlatWritten(w.written)
    ensures w.PacketSize() == if w.PacketData().Some? then |FlatWritten(w.written)| % 0x1_0000_0000 else 0
  {
    ErrorIffOutOfOrder(cs);
    RepresentsMeans(w.storage.data, w.bundles, w.err, w.written);
    hide FlatWritten, ApplyAll, InOrder, Sound;
  }

  /**
   Packet round trip on the objects: whatever writer has gone through the calls of a packet, a reader that
   is given its bytes is OK and holds exactly the messages sent, in order.
   */
  method Exchange(w: PacketWriter, ghost p: Packet, ghost notes: seq<Note>) returns (r: PacketReader)
    requires w.Valid() && w.written == ApplyAll(INITIAL, Calls(p))
    requires Writable(p) && |Flat(p)| < RANGE32
    requires |notes| == |Leaves(p, TIME_IMMEDIATE)|
    requires forall i | 0 <= i < |notes| :: Sends(Leaves(p, TIME_IMMEDIATE)[i], notes[i])
    ensures r.err == Ok && r.next == 0 && |r.messages| == |notes|
    ensures forall i | 0 <= i < |notes| ::
              r.messages[i].Valid() && Delivers(r.messages[i].State(), notes[i]) && r.messages[i].args == notes[i].args
  {
    hide Delivers, Sends, Writable, Leaves, Flat, ReadPacket, Stands, Holds;
    WriterHolds(w, p);
    PacketRoundTrip(p, notes);
    var data := w.PacketData();
    r := new PacketReader();
    r.Init(data.value);
    ghost var msgs := ReadPacket(Flat(p)).msgs;
    StandsLength(r.messages, msgs);
    forall i | 0 <= i < |notes|
      ensures r.messages[i].Valid() && Delivers(r.messages[i].State(), notes[i]) && r.messages[i].args == notes[i].args
    {
      StandsAt(r.messages, msgs, i);
      DeliversMeans(msgs[i], notes[i]);
    }
  }

  lemma DeliversMeans(m: MessageState, n: Note)
    requires Delivers(m, n)
    ensures m.err == Ok && ParsedArgs(m.data) == n.args
  {
  }

  // ----- messages

  /** A message built by pushing well-formed arguments packs to its encoding. */
  lemma BuiltMessagePacks(address: bytes, args: seq<Arg>)
    requires Sendable(address, args)
    ensures Packed(address, Tags(args), EncodeArgs(args)) == EncodeMessage(address, args)
  {
    hide *;
    SendableMeans(address, args);
    TagsHaveNoNul(args);
    HeaderStart(Tags(args));
    CopiedIsEncoded(address);
    CopiedIsEncoded([TAGS_START] + Tags(args));
    PackedIs(address, Tags(args), EncodeArgs(args));
    MessageParts(address, args);
    PadAligned(EncodeArgs(args));
  }

  lemma PadAligned(d: bytes)
    requires Aligned(|d|)
    ensures Pad(d) == d
  {
  }

  /**
   Reverse round trip: an accepted message without an overflowing blob is reproduced byte for byte,
   padding included, by pushing the arguments read from it into a fresh message and packing that.
   */
  lemma RepackReproduces(d: bytes)
    requires ParseMessage(d).err == Ok && !DeclaresOverflow(d)
    ensures var args := ParsedArgs(d);
            Packed(ParseMessage(d).address, Tags(args), EncodeArgs(args)) == d
  {
    hide *;
    OverflowIsDeclared(d);
    AcceptedMessageIsEncoded(d);
    BuiltMessagePacks(ParseMessage(d).address, ParsedArgs(d));
  }

  /** The arguments that `pushStr` and `pushBlob` take. */
  predicate Pushable(a: Arg) {
    && a != OverflowBlob
    && (a.Str? ==> |a.s| < 0x7FFF_FFFF)
    && (a.Blob? ==> |a.b| < 0x7FFF_FFFF)
  }

  lemma HeldStr(d: bytes, slot: Slot, a: Arg)
    requires SlotHolds(d, slot, a)
    ensures a.Str? ==> NUL !in a.s
  {
  }

  lemma NextIsFitting(n: nat, tags: bytes, idx: nat, pop: Pop, a: Arg)
    requires idx < n <= |tags| && tags[idx] == TagOf(a) && Fitting(pop, a)
    ensures Step(n, tags, Cursor(Ok, idx), pop) == Cursor(Ok, idx + 1)
  {
    FittingTag(pop, a);
  }

  lemma PopFor(a: Arg) returns (pop: Pop)
    requires a != OverflowBlob
    ensures Fitting(pop, a)
    ensures match a
            case Int32(_) => pop == AsInt32
            case Int64(_) => pop == AsInt64
            case Float(_) => pop == AsFloat
            case Double(_) => pop == AsDouble
            case Str(_) => pop == AsStr
            case Blob(_) => pop == AsBlob
            case _ => pop == AsBool
  {
    match a
    case Int32(_) => pop := AsInt32;
    case Int64(_) => pop := AsInt64;
    case Float(_) => pop := AsFloat;
    case Double(_) => pop := AsDouble;
    case Str(_) => pop := AsStr;
    case Blob(_) => pop := AsBlob;
    case _ => pop := AsBool;
  }

  /** Takes the next argument, by its type, from one message and appends it to another. */
  method CopyArgument(reader: ArgReader, copy: Message)
    requires reader.Ready() && reader.err == Ok && reader.argIdx < |reader.msg.args|
    requires Pushable(reader.msg.args[reader.argIdx])
    requires copy.Built() && copy != reader.msg && copy.storage != reader.msg.storage
    modifies reader, copy, copy.storage
    ensures reader.Ready() && reader.State() == Cursor(Ok, old(reader.argIdx) + 1)
    ensures copy.Built() && copy.args == old(copy.args) + [reader.msg.args[old(reader.argIdx)]]
    ensures copy.address == old(copy.address) && copy.err == Ok
  {
    hide SlotHolds, Aligned, Encode, Step, EncodeArgs, Tags, TagOf;
    ghost var m, k := reader.msg, reader.argIdx;
    ghost var a := m.args[k];
    ghost var pop := PopFor(a);
    HeldStr(m.storage.data, m.arguments[k], a);
    TagDetermines(a);
    NextIsFitting(|m.arguments|, m.typeTags, k, pop, a);
    var tag := reader.CurrentTypeTag();
    if tag == TAG_TRUE || tag == TAG_FALSE {
      var b := reader.PopBool();
      copy.PushBool(b);
    } else if tag == TAG_INT32 {
      var i := reader.PopInt32();
      copy.PushInt32(i);
    } else if tag == TAG_INT64 {
      var h := reader.PopInt64();
      copy.PushInt64(h);
    } else if tag == TAG_FLOAT {
      var f := reader.PopFloat();
      copy.PushFloat(f);
    } else if tag == TAG_DOUBLE {
      var f := reader.PopDouble();
      copy.PushDouble(f);
    } else if tag == TAG_STRING {
      var s := reader.PopStr([]);
      copy.PushStr(s);
    } else {
      var b := reader.PopBlob([]);
      copy.PushBlob(b);
    }
  }

  lemma AllPacked(m: Message, d: bytes)
    requires ParseMessage(d).err == Ok && !DeclaresOverflow(d)
    requires m.Built() && m.address == ParseMessage(d).address && m.args == ParsedArgs(d)
    ensures Packed(m.address, m.typeTags, m.storage.data) == d
  {
    RepackReproduces(d);
    hide ParseMessage, ParsedArgs, Packed, EncodeArgs, Tags, Holds;
  }

  lemma RawIs(d: bytes, tt: bits64)
    ensures var m := FromRaw(d, tt);
            m.address == ParseMessage(d).address && m.data == d && m.err == ParseMessage(d).err
  {
    hide ParseMessage;
  }

  /**
   The reverse round trip on the objects themselves: a message is parsed, its arguments are popped one by
   one and pushed into a fresh message, and this is packed. The bytes are those of the original.
   */
  method Repack(d: bytes) returns (s: Storage)
    requires Aligned(|d|) && ParseMessage(d).err == Ok && !DeclaresOverflow(d)
    requires forall a | a in ParsedArgs(d) :: a != OverflowBlob ==> Pushable(a)
    ensures s.data == d
  {
    hide ParseMessage, ParsedArgs, DeclaresOverflow, FromRaw, Packed;
    hide SlotHolds, Holds, Encode, EncodeArgs, Tags, Aligned;
    RawIs(d, TIME_IMMEDIATE);
    OverflowIsDeclared(d);
    var m := new Message.FromBytes(d, TIME_IMMEDIATE);
    var copy := new Message.WithAddress(m.address, TIME_IMMEDIATE);
    var reader := new ArgReader(m, Ok);
    var n := |m.arguments|;
    assert |m.args| == n by { HoldsLength(m.storage.data, m.arguments, m.args); }
    while reader.argIdx < n
      invariant reader.Ready() && reader.err == Ok && reader.argIdx <= n
      invariant copy.Built() && copy.address == m.address && copy.args == m.args[..reader.argIdx]
      modifies reader, copy, copy.storage
      decreases n - reader.argIdx
    {
      CopyArgument(reader, copy);
    }
    assert m.args[..n] == m.args;
    AllPacked(copy, d);
    s := new Storage();
    AlignedZero();
    copy.PackMessage(s, false);
  }

  lemma HoldsLength(d: bytes, slots: seq<Slot>, args: seq<Arg>)
    requires Holds(d, slots, args)
    ensures |slots| == |args|
  {
  }

  /** Packing the parsed message itself does not: its storage is the whole packet, header included. */
  lemma PackingAParsedMessageGrows(d: bytes)
    requires Aligned(|d|) && ParseMessage(d).err == Ok
    ensures |Packed(ParseMessage(d).address, ParseMessage(d).typeTags, d)| > |d|
  {
    hide ParseMessage;
  }
}
