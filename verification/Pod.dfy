/**
 Reading and writing fixed-width integers in unaligned byte arrays. The wire order is big-endian
 whatever the byte order of the host.
 */
module Pod {
  import opened Bytes

  datatype ByteOrder = BigEndian | LittleEndian

  /** The byte order of the machine the codec runs on. It has no value here: what is proved holds for both. */
  const HOST: ByteOrder

  /** Number of values that fit in `width` bytes. */
  function Range(width: nat): (r: nat)
    ensures r > 0
  {
    if width == 0 then 1 else 256 * Range(width - 1)
  }

  const RANGE32: nat := 0x1_0000_0000
  const RANGE64: nat := 0x1_0000_0000_0000_0000

  lemma Ranges()
    ensures Range(4) == RANGE32 && Range(8) == RANGE64
  {
    assert Range(4) == 256 * (256 * (256 * (256 * Range(0))));
    assert Range(8) == 256 * (256 * (256 * (256 * Range(4))));
  }

  /** The `width` low-order bytes of `v`, most significant first. */
  function ToWire(width: nat, v: nat): (r: bytes)
    ensures |r| == width
  {
    if width == 0 then [] else ToWire(width - 1, v / 256) + [v % 256]
  }

  /** The number written in `d`, most significant byte first. */
  function FromWire(d: bytes): nat {
    if d == [] then 0 else FromWire(d[..|d| - 1]) * 256 + d[|d| - 1]
  }

  lemma {:induction false} FromToWire(width: nat, v: nat)
    requires v < Range(width)
    ensures FromWire(ToWire(width, v)) == v
  {
    if width > 0 {
      var d := ToWire(width, v);
      assert d[..width - 1] == ToWire(width - 1, v / 256);
      FromToWire(width - 1, v / 256);
    }
  }

  lemma {:induction false} ToFromWire(d: bytes)
    ensures FromWire(d) < Range(|d|)
    ensures ToWire(|d|, FromWire(d)) == d
  {
    if d != [] {
      var init := d[..|d| - 1];
      ToFromWire(init);
      assert FromWire(d) / 256 == FromWire(init);
      assert d == init + [d[|d| - 1]];
    }
  }

  /** The `width` low-order bytes of `v`, least significant first. */
  function Reversed(width: nat, v: nat): (r: bytes)
    ensures |r| == width
  {
    if width == 0 then [] else [v % 256] + Reversed(width - 1, v / 256)
  }

  /** How a host of the given byte order lays out the value `v` in memory. */
  function Memory(order: ByteOrder, width: nat, v: nat): (r: bytes)
    ensures |r| == width
  {
    match order
    case BigEndian => ToWire(width, v)
    case LittleEndian => Reversed(width, v)
  }

  /** The value a host reads back from its memory. */
  function Value(order: ByteOrder, m: bytes): nat
    decreases |m|
  {
    match order
    case BigEndian => FromWire(m)
    case LittleEndian => if m == [] then 0 else m[0] + 256 * Value(order, m[1..])
  }

  /** The same bytes in the opposite order. */
  function Flip(d: bytes): (r: bytes)
    ensures |r| == |d|
    ensures forall k | 0 <= k < |d| :: r[k] == d[|d| - 1 - k]
  {
    if d == [] then [] else [d[|d| - 1]] + Flip(d[..|d| - 1])
  }

  lemma FlipTwice(d: bytes)
    ensures Flip(Flip(d)) == d
  {
  }

  lemma {:induction false} ReversedIsFlip(width: nat, v: nat)
    ensures Reversed(width, v) == Flip(ToWire(width, v))
  {
    if width > 0 {
      ReversedIsFlip(width - 1, v / 256);
      var d := ToWire(width, v);
      assert d[..width - 1] == ToWire(width - 1, v / 256);
    }
  }

  lemma {:induction false} FlippedValue(d: bytes)
    ensures Value(LittleEndian, Flip(d)) == FromWire(d)
    decreases |d|
  {
    if d != [] {
      FlippedValue(d[..|d| - 1]);
      assert Flip(d)[1..] == Flip(d[..|d| - 1]);
    }
  }

  /** The run-time test looks at the first byte of 0x12345678 in memory; it finds out the host's byte order. */
  predicate IsBigEndian(order: ByteOrder) {
    Memory(order, 4, 0x12345678)[0] == 0x12
  }

  lemma IsBigEndianCorrect(order: ByteOrder)
    ensures IsBigEndian(order) <==> order == BigEndian
  {
    match order
    case BigEndian =>
      assert ToWire(4, 0x12345678) == ToWire(3, 0x123456) + [0x78];
      assert ToWire(3, 0x123456) == ToWire(2, 0x1234) + [0x56];
      assert ToWire(2, 0x1234) == ToWire(1, 0x12) + [0x34];
      assert ToWire(1, 0x12) == ToWire(0, 0) + [0x12];
      assert ToWire(0, 0) == [];
    case LittleEndian =>
      assert Memory(order, 4, 0x12345678)[0] == 0x78;
  }

  /** The bytes between memory order and wire order: as they are on a big-endian host, else back to front. */
  function Reorder(order: ByteOrder, d: bytes): (r: bytes)
    ensures |r| == |d|
  {
    if order == BigEndian then d else Flip(d)
  }

  lemma ReorderedAt(order: ByteOrder, p: bytes, i: nat)
    requires i < |p|
    ensures Reorder(order, p)[i] == p[if order == BigEndian then i else |p| - i - 1]
    ensures Reorder(order, p)[..i + 1] == Reorder(order, p)[..i] + [Reorder(order, p)[i]]
  {
  }

  /** The copying loop of both conversions. */
  method CopyReordered(order: ByteOrder, p: bytes) returns (d: bytes)
    ensures d == Reorder(order, p)
  {
    hide Reorder, Memory, IsBigEndian;
    IsBigEndianCorrect(order);
    var big := IsBigEndian(order);
    d := [];
    for i := 0 to |p|
      invariant d == Reorder(order, p)[..i]
    {
      ReorderedAt(order, p, i);
      d := d + [if big then p[i] else p[|p| - i - 1]];
    }
  }

  /** Writes a value of `width` bytes; the result is in wire order on either host. */
  method Pod2Bytes(order: ByteOrder, width: nat, v: nat) returns (d: bytes)
    ensures d == ToWire(width, v)
  {
    d := CopyReordered(order, Memory(order, width, v));
    SentInWireOrder(order, width, v);
  }

  /** Reads a value of `|d|` bytes; the bytes are taken in wire order on either host. */
  method Bytes2Pod(order: ByteOrder, d: bytes) returns (v: nat)
    ensures v == FromWire(d)
    ensures v < Range(|d|)
  {
    var p := CopyReordered(order, d);
    v := Value(order, p);
    ReadFromWireOrder(order, d);
    ToFromWire(d);
  }

  lemma SentInWireOrder(order: ByteOrder, width: nat, v: nat)
    ensures Reorder(order, Memory(order, width, v)) == ToWire(width, v)
  {
    ReversedIsFlip(width, v);
    FlipTwice(ToWire(width, v));
  }

  lemma ReadFromWireOrder(order: ByteOrder, d: bytes)
    ensures Value(order, Reorder(order, d)) == FromWire(d)
  {
    FlippedValue(d);
  }

  /** Hosts of any byte orders agree: what one sends from its memory is the value the other reads into its own. */
  lemma HostsAgree(writer: ByteOrder, reader: ByteOrder, width: nat, v: nat)
    requires v < Range(width)
    ensures Value(reader, Reorder(reader, Reorder(writer, Memory(writer, width, v)))) == v
  {
    SentInWireOrder(writer, width, v);
    ReadFromWireOrder(reader, ToWire(width, v));
    FromToWire(width, v);
  }
}
