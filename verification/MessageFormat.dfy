/**
 The wire format of one OSC message: address, type tags and arguments, each padded to 4 bytes. The
 encoder and the parser are given as functions, with what relates them.
 */
module MessageFormat {
  import opened Bytes
  import opened Pod

  datatype ErrorCode =
    | Ok
    | MalformedAddressPattern | MalformedTypeTags | MalformedArguments | UnhandledTypeTags
    | TypeMismatch | NotEnoughArg | PatternMismatch
    | InvalidBundle | InvalidPacketSize | BundleRequiredForMultiMessages

  /** Raising an error keeps an error that is already there. */
  function Raise(err: ErrorCode, e: ErrorCode): ErrorCode {
    if err == Ok then e else err
  }

  type int32 = i: int | -0x8000_0000 <= i < 0x8000_0000
  type int64 = i: int | -0x8000_0000_0000_0000 <= i < 0x8000_0000_0000_0000
  type bits32 = n: int | 0 <= n < RANGE32
  type bits64 = n: int | 0 <= n < RANGE64

  /** Two's complement. */
  function ToBits32(i: int32): bits32 { if i < 0 then i + RANGE32 else i }
  function FromBits32(n: bits32): int32 { if n < 0x8000_0000 then n else n - RANGE32 }
  function ToBits64(i: int64): bits64 { if i < 0 then i + RANGE64 else i }
  function FromBits64(n: bits64): int64 { if n < 0x8000_0000_0000_0000 then n else n - RANGE64 }

  /**
   An argument. Floating point values are their bit patterns. `OverflowBlob` is not an argument that
   can be sent: it is what the parser makes of a blob whose declared length overflows when the length
   word itself is added to it.
   */
  datatype Arg =
    | True | False
    | Int32(i: int32) | Int64(h: int64)
    | Float(f: bits32) | Double(d: bits64)
    | Str(s: bytes) | Blob(b: bytes)
    | OverflowBlob

  const TAG_TRUE: byte := 84     // 'T'
  const TAG_FALSE: byte := 70    // 'F'
  const TAG_INT32: byte := 105   // 'i'
  const TAG_INT64: byte := 104   // 'h'
  const TAG_FLOAT: byte := 102   // 'f'
  const TAG_DOUBLE: byte := 100  // 'd'
  const TAG_STRING: byte := 115  // 's'
  const TAG_BLOB: byte := 98     // 'b'
  const ADDRESS_START: byte := 47  // '/'
  const TAGS_START: byte := 44     // ','

  function TagOf(a: Arg): byte {
    match a
    case True => TAG_TRUE
    case False => TAG_FALSE
    case Int32(_) => TAG_INT32
    case Int64(_) => TAG_INT64
    case Float(_) => TAG_FLOAT
    case Double(_) => TAG_DOUBLE
    case Str(_) => TAG_STRING
    case Blob(_) => TAG_BLOB
    case OverflowBlob => TAG_BLOB
  }

  function Tags(args: seq<Arg>): (r: bytes)
    ensures |r| == |args|
    ensures forall k | 0 <= k < |args| :: r[k] == TagOf(args[k])
  {
    seq(|args|, k requires 0 <= k < |args| => TagOf(args[k]))
  }

  /** The bytes of an argument before padding. */
  function Raw(a: Arg): bytes {
    match a
    case True => []
    case False => []
    case Int32(i) => ToWire(4, ToBits32(i))
    case Int64(h) => ToWire(8, ToBits64(h))
    case Float(f) => ToWire(4, f)
    case Double(d) => ToWire(8, d)
    case Str(s) => s + [NUL]
    case Blob(b) => ToWire(4, |b|) + b
    case OverflowBlob => []
  }

  /** The arguments that the format can carry. */
  predicate Encodable(a: Arg) {
    match a
    case Str(s) => NUL !in s
    case Blob(b) => |b| < RANGE32 - 4
    case OverflowBlob => false
    case _ => true
  }

  /** The bytes of an argument, padded. */
  function Encode(a: Arg): (r: bytes)
    ensures |r| == Ceil4(|Raw(a)|)
  {
    Pad(Raw(a))
  }

  function EncodeArgs(args: seq<Arg>): (r: bytes)
    ensures Aligned(|r|)
  {
    if args == [] then [] else
      AlignedAdd(|Encode(args[0])|, |EncodeArgs(args[1..])|);
      Encode(args[0]) + EncodeArgs(args[1..])
  }

  /** A string with its terminating NUL, padded. */
  function EncodeStr(s: bytes): (r: bytes)
    ensures |r| == Ceil4(|s| + 1)
  {
    Pad(s + [NUL])
  }

  function EncodeMessage(address: bytes, args: seq<Arg>): (r: bytes)
    ensures Aligned(|r|)
  {
    var head := EncodeStr(address) + EncodeStr([TAGS_START] + Tags(args));
    AlignedAdd(|EncodeStr(address)|, |EncodeStr([TAGS_START] + Tags(args))|);
    AlignedAdd(|head|, |EncodeArgs(args)|);
    head + EncodeArgs(args)
  }

  /** The addresses and arguments that make a message. */
  predicate Sendable(address: bytes, args: seq<Arg>) {
    && address != [] && address[0] == ADDRESS_START && NUL !in address
    && forall a | a in args :: Encodable(a)
  }

  // ----- the parser

  /** Position and size of an argument in the bytes of a message. */
  datatype Slot = Slot(pos: nat, size: nat)

  datatype Extent = Fits(size: nat) | Fails(err: ErrorCode)

  /** Zero bytes from `p` to the next multiple of 4. */
  predicate PaddedAt(d: bytes, p: nat) {
    Ceil4(p) <= |d| && forall k | p <= k < Ceil4(p) :: d[k] == 0
  }

  function Checked(d: bytes, p: nat, size: nat): (r: Extent)
    ensures r == Fits(size) || r == Fails(MalformedArguments)
  {
    if p + size > |d| || !PaddedAt(d, p + size) then Fails(MalformedArguments) else Fits(size)
  }

  /** Addition in 32 bits. */
  function Add32(a: bits32, b: bits32): bits32 {
    if a + b < RANGE32 then a + b else a + b - RANGE32
  }

  /** The 32-bit word at `p`. */
  function Word(d: bytes, p: nat): bits32
    requires p + 4 <= |d|
  {
    ToFromWire(d[p..p + 4]);
    Ranges();
    FromWire(d[p..p + 4])
  }

  /** The number of bytes that an argument of the given type occupies at `p`. */
  function ArgSize(d: bytes, tag: byte, p: nat): (r: Extent)
    ensures r.Fits? ==> p + r.size <= |d| && PaddedAt(d, p + r.size)
    ensures r.Fails? ==> r.err != Ok
  {
    if tag == TAG_TRUE || tag == TAG_FALSE then Checked(d, p, 0)
    else if tag == TAG_INT32 || tag == TAG_FLOAT then Checked(d, p, 4)
    else if tag == TAG_INT64 || tag == TAG_DOUBLE then Checked(d, p, 8)
    else if tag == TAG_STRING then
      if p > |d| || Find(d, p, NUL) == |d| then Fails(MalformedArguments)
      else Checked(d, p, Find(d, p, NUL) - p + 1)
    else if tag == TAG_BLOB then
      if p + 4 > |d| then Fails(MalformedArguments) else Checked(d, p, Add32(4, Word(d, p)))
    else Fails(UnhandledTypeTags)
  }

  datatype Scan = Scan(err: ErrorCode, slots: seq<Slot>, end: nat)

  function ScanArgs(d: bytes, tags: bytes, p: nat): (r: Scan)
    ensures |r.slots| <= |tags|
    ensures r.err == Ok ==> |r.slots| == |tags|
    decreases |tags|
  {
    if tags == [] then Scan(Ok, [], p)
    else
      match ArgSize(d, tags[0], p)
      case Fails(e) => Scan(e, [], p)
      case Fits(n) =>
        var rest := ScanArgs(d, tags[1..], p + Ceil4(n));
        Scan(rest.err, [Slot(p, n)] + rest.slots, rest.end)
  }

  datatype Parsed = Parsed(err: ErrorCode, address: bytes, typeTags: bytes, slots: seq<Slot>)

  /** The end of the padded string at `p`. */
  function FieldEnd(d: bytes, p: nat): (r: Option<nat>)
    ensures r.Some? ==> p <= r.value < |d| && Ceil4(r.value + 1) <= |d|
  {
    if p > |d| then None
    else
      var q := Find(d, p, NUL);
      if q == |d| || !PaddedAt(d, q + 1) then None else Some(q)
  }

  /** The outcome of the scan over the arguments, which have to fill the message. */
  function Finished(d: bytes, address: bytes, tags: bytes, scan: Scan): Parsed {
    Parsed(if scan.err == Ok && scan.end != |d| then MalformedArguments else scan.err, address, tags, scan.slots)
  }

  function ParseMessage(d: bytes): (r: Parsed)
    ensures |r.slots| <= |r.typeTags|
    ensures r.err == Ok ==> |r.slots| == |r.typeTags|
  {
    var a := FieldEnd(d, 0);
    if a.None? || d[0] != ADDRESS_START then Parsed(MalformedAddressPattern, [], [], [])
    else
      var t := Ceil4(a.value + 1);
      var e := FieldEnd(d, t);
      if e.None? || d[t] != TAGS_START then Parsed(MalformedTypeTags, d[..a.value], [], [])
      else
        var tags := d[t..e.value][1..];
        Finished(d, d[..a.value], tags, ScanArgs(d, tags, Ceil4(e.value + 1)))
  }

  /** The value in a slot. */
  function ReadArg(d: bytes, tag: byte, slot: Slot): (a: Arg)
  {
    var p := slot.pos;
    if tag == TAG_TRUE then True
    else if tag == TAG_FALSE then False
    else if p + slot.size > |d| then OverflowBlob
    else
      var raw := d[p..p + slot.size];
      ToFromWire(raw);
      Ranges();
      if tag == TAG_INT32 && |raw| == 4 then Int32(FromBits32(FromWire(raw)))
      else if tag == TAG_INT64 && |raw| == 8 then Int64(FromBits64(FromWire(raw)))
      else if tag == TAG_FLOAT && |raw| == 4 then Float(FromWire(raw))
      else if tag == TAG_DOUBLE && |raw| == 8 then Double(FromWire(raw))
      else if tag == TAG_STRING && |raw| > 0 then Str(raw[..|raw| - 1])
      else if tag == TAG_BLOB && |raw| >= 4 then Blob(raw[4..])
      else OverflowBlob
  }

  /** The arguments of a parsed message. */
  function ReadArgs(d: bytes, tags: bytes, slots: seq<Slot>): (r: seq<Arg>)
    requires |slots| <= |tags|
    ensures |r| == |slots|
    ensures forall k | 0 <= k < |slots| :: r[k] == ReadArg(d, tags[k], slots[k])
  {
    seq(|slots|, k requires 0 <= k < |slots| => ReadArg(d, tags[k], slots[k]))
  }

  function ParsedArgs(d: bytes): seq<Arg> {
    var m := ParseMessage(d);
    ReadArgs(d, m.typeTags, m.slots)
  }

  /** A slot of `d` holds an argument. A boolean is in its tag; a string may be followed by further zeros. */
  predicate SlotHolds(d: bytes, slot: Slot, a: Arg) {
    match a
    case True => true
    case False => true
    case Str(s) =>
      && slot.pos + |s| + 1 <= |d| && |s| < slot.size && NUL !in s
      && d[slot.pos..slot.pos + |s| + 1] == s + [NUL]
    case _ => slot.size == |Raw(a)| && slot.pos + slot.size <= |d| && d[slot.pos..slot.pos + slot.size] == Raw(a)
  }

  /** Slot by slot, `d` holds the arguments. */
  predicate Holds(d: bytes, slots: seq<Slot>, args: seq<Arg>) {
    |slots| == |args| && forall k | 0 <= k < |args| :: SlotHolds(d, slots[k], args[k])
  }
}
