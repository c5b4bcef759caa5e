/**
 Packets: a packet is a message, a bundle of sized elements, or nothing at all. The bytes of a packet,
 and what the recursive reader makes of a range of bytes.
 */
module PacketFormat {
  import opened Bytes
  import opened Pod
  import opened MessageFormat
  import opened Messages

  /** A message is represented by its bytes. */
  datatype Packet =
    | Nothing
    | Leaf(raw: bytes)
    | Bundle(tt: bits64, elems: seq<Packet>)

  const HASH: byte := 35  // '#'
  const BUNDLE_TAG: bytes := [35, 98, 117, 110, 100, 108, 101, 0]  // "#bundle" and its NUL

  function Header(tt: bits64): (r: bytes)
    ensures |r| == 16
  {
    BUNDLE_TAG + ToWire(8, tt)
  }

  /** The bytes of a packet. */
  function Flat(p: Packet): bytes
    decreases p
  {
    match p
    case Nothing => []
    case Leaf(raw) => raw
    case Bundle(tt, elems) => Header(tt) + FlatElems(elems)
  }

  /** Each element after its size. */
  function FlatElems(es: seq<Packet>): bytes
    decreases es
  {
    if es == [] then [] else SizeWord(|Flat(es[0])|) + Flat(es[0]) + FlatElems(es[1..])
  }

  /** The packet grammar. Elements of size zero are allowed, bundles without elements are not. */
  predicate Good(p: Packet)
    decreases p
  {
    match p
    case Nothing => true
    case Leaf(raw) => Aligned(|raw|) && ParseMessage(raw).err == Ok
    case Bundle(tt, elems) => elems != [] && GoodElems(elems)
  }

  predicate GoodElems(es: seq<Packet>)
    decreases es
  {
    es == [] || (Good(es[0]) && |Flat(es[0])| < RANGE32 && GoodElems(es[1..]))
  }

  /** The messages of a packet in order, each with the time tag of the innermost bundle around it. */
  function Listing(p: Packet, tt: bits64): seq<MessageState>
    decreases p
  {
    match p
    case Nothing => []
    case Leaf(raw) => [FromRaw(raw, tt)]
    case Bundle(t, elems) => ListingElems(elems, t)
  }

  function ListingElems(es: seq<Packet>, tt: bits64): seq<MessageState>
    decreases es
  {
    if es == [] then [] else Listing(es[0], tt) + ListingElems(es[1..], tt)
  }

  // ----- the reader

  datatype Reading = Reading(msgs: seq<MessageState>, err: ErrorCode)

  /** The 64-bit number at `p`. */
  function LongWord(d: bytes, p: nat): bits64
    requires p + 8 <= |d|
  {
    ToFromWire(d[p..p + 8]);
    Ranges();
    FromWire(d[p..p + 8])
  }

  predicate StartsBundle(d: bytes) {
    |d| >= 20 && d[..8] == BUNDLE_TAG
  }

  predicate BadSize(d: bytes)
    requires |d| >= 4
  {
    !Aligned(Word(d, 0)) || 4 + Word(d, 0) > |d|
  }

  function ReadRange(d: bytes, tt: bits64): Reading
    decreases |d|, 1
  {
    if d == [] then Reading([], Ok)
    else if d[0] == HASH then
      if StartsBundle(d) then ReadElems(d[16..], LongWord(d, 8)) else Reading([], InvalidBundle)
    else
      var m := FromRaw(d, tt);
      Reading([m], m.err)
  }

  /** The elements of a bundle up to the first error. */
  function ReadElems(d: bytes, tt: bits64): Reading
    decreases |d|, 0
  {
    if |d| < 4 || BadSize(d) then Reading([], InvalidBundle)
    else
      var next := 4 + Word(d, 0);
      var first := ReadRange(d[4..next], tt);
      if first.err != Ok || next == |d| then first
      else
        var rest := ReadElems(d[next..], tt);
        Reading(first.msgs + rest.msgs, rest.err)
  }

  function ReadPacket(d: bytes): Reading {
    if Aligned(|d|) then ReadRange(d, TIME_IMMEDIATE) else Reading([], InvalidPacketSize)
  }

  /** The packet that a range of bytes stands for, whenever it stands for one. */
  function TreeOf(d: bytes): Packet
    decreases |d|, 1
  {
    if d == [] then Nothing
    else if d[0] == HASH && StartsBundle(d) then Bundle(LongWord(d, 8), ElemsOf(d[16..]))
    else Leaf(d)
  }

  function ElemsOf(d: bytes): seq<Packet>
    decreases |d|, 0
  {
    if |d| < 4 || BadSize(d) then []
    else
      var next := 4 + Word(d, 0);
      [TreeOf(d[4..next])] + (if next == |d| then [] else ElemsOf(d[next..]))
  }
}
