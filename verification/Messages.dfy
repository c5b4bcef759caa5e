/**
 Messages: building them argument by argument, parsing them from raw bytes, packing them, and reading
 their arguments.
 */
module Messages {
  import opened Bytes
  import opened Pod
  import opened MessageFormat
  import opened MessageLaws
  import opened Pops
  import PatternSpec
  import PatternMatcher

  const TIME_IMMEDIATE: bits64 := 1

  /** The growing byte store of a message or a packet. */
  class Storage {
    var data: bytes

    constructor ()
      ensures data == []
    {
      data := [];
    }

    /** Makes room for `sz` bytes, padded, all zero; returns where they start. */
    method GetBytes(sz: nat) returns (pos: nat)
      requires Aligned(|data|)
      modifies this
      ensures pos == |old(data)| && data == old(data) + Zeros(Ceil4(sz)) && Aligned(|data|)
    {
      AlignedAdd(|data|, Ceil4(sz));
      pos := |data|;
      data := data + Zeros(Ceil4(sz));
    }

    /** Overwrites bytes in place. */
    method Write(pos: nat, d: bytes)
      requires pos + |d| <= |data|
      modifies this
      ensures data == old(data)[..pos] + d + old(data)[pos + |d|..]
      ensures |data| == |old(data)|
    {
      data := data[..pos] + d + data[pos + |d|..];
    }

    /** Makes room for `sz` bytes and copies at most as many into it. */
    method Append(sz: nat, d: bytes)
      requires Aligned(|data|) && |d| <= sz
      modifies this
      ensures data == old(data) + d + Zeros(Ceil4(sz) - |d|) && Aligned(|data|)
    {
      var pos := GetBytes(sz);
      Write(pos, d);
    }

    /** Copies a C string into room for it. */
    method AppendStr(s: bytes)
      requires Aligned(|data|)
      modifies this
      ensures data == old(data) + CopiedStr(s) && Aligned(|data|)
    {
      Append(|s| + 1, CStr(s));
    }

    /** Writes a number of `width` bytes in wire order. */
    method AppendPod(width: nat, v: nat)
      requires Aligned(|data|) && Aligned(width)
      modifies this
      ensures data == old(data) + ToWire(width, v) && Aligned(|data|)
    {
      var d := Pod2Bytes(HOST, width, v);
      Append(width, d);
    }

    /** Copies bytes, if there are any, into room for them. */
    method AppendBytes(d: bytes)
      requires Aligned(|data|)
      modifies this
      ensures data == old(data) + Pad(d) && Aligned(|data|)
    {
      if |d| > 0 {
        Append(|d|, d);
      }
    }
  }

  /** What `strcpy` leaves in zeroed room for a string of this length: the string up to its first NUL. */
  function CopiedStr(s: bytes): (r: bytes)
    ensures |r| == Ceil4(|s| + 1)
  {
    CStr(s) + Zeros(Ceil4(|s| + 1) - |CStr(s)|)
  }

  lemma CopiedIsEncoded(s: bytes)
    requires NUL !in s
    ensures CopiedStr(s) == EncodeStr(s)
  {
    hide Ceil4;
  }

  /** The bytes that a message is packed to. */
  function Packed(address: bytes, typeTags: bytes, data: bytes): (r: bytes)
    ensures |r| == Ceil4(|address| + 1) + Ceil4(|typeTags| + 2) + Ceil4(|data|)
    ensures Aligned(|r|)
  {
    var head := CopiedStr(address) + CopiedStr([TAGS_START] + typeTags);
    AlignedAdd(Ceil4(|address| + 1), Ceil4(|typeTags| + 2));
    AlignedAdd(|head|, Ceil4(|data|));
    head + Pad(data)
  }

  lemma PackedIs(address: bytes, typeTags: bytes, data: bytes)
    ensures Packed(address, typeTags, data) == CopiedStr(address) + CopiedStr([TAGS_START] + typeTags) + Pad(data)
  {
    hide CopiedStr, Ceil4, Aligned, Pad;
  }

  lemma Regrouped(before: bytes, a: bytes, b: bytes, c: bytes)
    ensures before + a + b + c == before + (a + b + c)
  {
  }

  /** Everything there is to a message. */
  datatype MessageState = MessageState(timeTag: bits64, address: bytes, typeTags: bytes, slots: seq<Slot>,
                                       data: bytes, err: ErrorCode)

  /** The message that is parsed from raw bytes; it keeps a copy of all of them. */
  function FromRaw(d: bytes, timeTag: bits64): MessageState {
    var m := ParseMessage(d);
    MessageState(timeTag, m.address, m.typeTags, m.slots, d, m.err)
  }

  /** The size word before an element of a bundle: the size in 32 bits. */
  function SizeWord(n: nat): (r: bytes)
    ensures |r| == 4
  {
    ToWire(4, n)
  }

  lemma SizeWordIs(n: nat)
    ensures SizeWord(n) == ToWire(4, n)
  {
  }

  lemma FourIsAligned()
    ensures Aligned(4)
  {
  }

  /** A message after an argument was appended: its tag, its slot of the given size, and its bytes `e`. */
  function PushedState(m: MessageState, a: Arg, size: nat, e: bytes): MessageState {
    m.(typeTags := m.typeTags + [TagOf(a)], slots := m.slots + [Slot(|m.data|, size)], data := m.data + e)
  }

  lemma SlotStays(d: bytes, e: bytes, slot: Slot, a: Arg)
    requires SlotHolds(d, slot, a)
    ensures SlotHolds(d + e, slot, a)
  {
    hide Raw;
    match a
    case True =>
    case False =>
    case Str(s) => assert (d + e)[slot.pos..slot.pos + |s| + 1] == d[slot.pos..slot.pos + |s| + 1];
    case _ => assert (d + e)[slot.pos..slot.pos + slot.size] == d[slot.pos..slot.pos + slot.size];
  }

  lemma NoArgs()
    ensures EncodeArgs([]) == []
  {
  }

  lemma {:induction false} EncodeArgsSnoc(args: seq<Arg>, a: Arg)
    ensures EncodeArgs(args + [a]) == EncodeArgs(args) + Encode(a)
  {
    hide *;
    if args == [] {
      assert args + [a] == [a] + [];
      EncodeArgsCons(a, []);
      NoArgs();
    } else {
      EncodeArgsSnoc(args[1..], a);
      assert args == [args[0]] + args[1..] && args + [a] == [args[0]] + (args[1..] + [a]);
      EncodeArgsCons(args[0], args[1..]);
      EncodeArgsCons(args[0], args[1..] + [a]);
    }
  }

  lemma HoldsSnoc(d: bytes, slots: seq<Slot>, args: seq<Arg>, e: bytes, slot: Slot, a: Arg)
    requires Holds(d, slots, args) && SlotHolds(d + e, slot, a)
    ensures Holds(d + e, slots + [slot], args + [a])
  {
    hide SlotHolds;
    forall k | 0 <= k < |args| ensures SlotHolds(d + e, slots[k], args[k]) {
      SlotStays(d, e, slots[k], args[k]);
    }
  }

  lemma TagsSnoc(args: seq<Arg>, a: Arg)
    ensures Tags(args + [a]) == Tags(args) + [TagOf(a)]
  {
    hide TagOf;
  }

  /** Appending an argument keeps what the message holds, and keeps it an encoding if it was one. */
  lemma PushKeeps(d: bytes, slots: seq<Slot>, args: seq<Arg>, e: bytes, slot: Slot, a: Arg)
    requires Aligned(|d|) && Aligned(|e|) && Holds(d, slots, args) && SlotHolds(d + e, slot, a)
    ensures Aligned(|d + e|)
    ensures Tags(args + [a]) == Tags(args) + [TagOf(a)]
    ensures Holds(d + e, slots + [slot], args + [a])
    ensures d == EncodeArgs(args) && e == Encode(a) ==> d + e == EncodeArgs(args + [a])
  {
    hide *;
    AlignedAdd(|d|, |e|);
    EncodeArgsSnoc(args, a);
    TagsSnoc(args, a);
    HoldsSnoc(d, slots, args, e, slot, a);
  }

  lemma PushedBool(d: bytes, b: bool)
    ensures var a := if b then True else False;
            && Encode(a) == [] && Aligned(0) && TagOf(a) == (if b then TAG_TRUE else TAG_FALSE) && d + [] == d
            && SlotHolds(d + [], Slot(|d|, |d|), a)
  {
    assert d + [] == d;
  }

  lemma PushedWord(d: bytes, a: Arg, width: nat, v: nat)
    requires a.Int32? || a.Int64? || a.Float? || a.Double?
    requires Raw(a) == ToWire(width, v) && (width == 4 || width == 8)
    ensures Encode(a) == ToWire(width, v) && Aligned(width)
    ensures SlotHolds(d + Encode(a), Slot(|d|, width), a)
  {
    hide ToWire, Raw;
    assert (d + Encode(a))[|d|..|d| + width] == Encode(a);
  }

  lemma PushedStr(d: bytes, s: bytes)
    ensures var a := Str(CStr(s));
            && TagOf(a) == TAG_STRING && Aligned(|CopiedStr(s)|)
            && (NUL !in s ==> CopiedStr(s) == Encode(a))
            && SlotHolds(d + CopiedStr(s), Slot(|d|, |s| + 1), a)
  {
    hide Ceil4, Aligned;
    var c, e := CStr(s), CopiedStr(s);
    assert e[..|c| + 1] == c + [NUL];
    assert (d + e)[|d|..|d| + |c| + 1] == e[..|c| + 1];
  }

  lemma PushedBlob(d: bytes, b: bytes)
    ensures var a := Blob(b);
            && TagOf(a) == TAG_BLOB && Aligned(|Encode(a)|) && Aligned(4)
            && Encode(a) == ToWire(4, |b|) + Pad(b)
            && SlotHolds(d + Encode(a), Slot(|d|, |b| + 4), a)
  {
    hide *;
    BlobEncoding(b);
    FourIsAligned();
    AlignedAdd(4, |Pad(b)|);
    var word, pad := ToWire(4, |b|), Pad(b);
    var e := word + pad;
    assert e[..|b| + 4] == word + pad[..|b|] && (d + e)[|d|..|d| + |b| + 4] == e[..|b| + 4];
    BlobHeld(d + e, |d|, b);
  }

  lemma BlobEncoding(b: bytes)
    ensures Encode(Blob(b)) == ToWire(4, |b|) + Pad(b) && TagOf(Blob(b)) == TAG_BLOB
    ensures |ToWire(4, |b|)| == 4 && Aligned(|Pad(b)|) && |b| <= |Pad(b)| && Pad(b)[..|b|] == b
  {
    hide ToWire;
    Ceil4Shift(4, |b|);
    PadShift(ToWire(4, |b|), b);
  }

  lemma PadShift(word: bytes, b: bytes)
    requires |word| == 4
    ensures Pad(word + b) == word + Pad(b)
  {
    Ceil4Shift(4, |b|);
    hide Ceil4, Aligned;
  }

  lemma BlobHeld(d: bytes, p: nat, b: bytes)
    requires p + |b| + 4 <= |d| && d[p..p + |b| + 4] == ToWire(4, |b|) + b
    ensures SlotHolds(d, Slot(p, |b| + 4), Blob(b))
  {
    hide ToWire;
    assert Raw(Blob(b)) == ToWire(4, |b|) + b;
  }

  function Append(slots: seq<Slot>, rest: Scan): Scan {
    Scan(rest.err, slots + rest.slots, rest.end)
  }

  /** One round of the loop over the type tags. */
  lemma ScanRound(d: bytes, tags: bytes, i: nat, p: nat, slots: seq<Slot>, scan: Scan)
    requires i < |tags| && scan == Append(slots, ScanArgs(d, tags[i..], p))
    ensures match ArgSize(d, tags[i], p)
            case Fails(e) => scan.err == e && scan.slots == slots
            case Fits(n) => scan == Append(slots + [Slot(p, n)], ScanArgs(d, tags[i + 1..], p + Ceil4(n)))
  {
    hide ArgSize, Ceil4;
    assert tags[i..][1..] == tags[i + 1..];
  }

  /** The end of the loop. */
  lemma ScanDone(d: bytes, tags: bytes, start: nat, p: nat, slots: seq<Slot>)
    requires ScanArgs(d, tags, start) == Append(slots, ScanArgs(d, tags[|tags|..], p))
    ensures ScanArgs(d, tags, start) == Scan(Ok, slots, p)
  {
  }

  lemma AlignedZero()
    ensures Aligned(0)
  {
  }

  lemma RoomForWord(p: nat, n: nat)
    requires Aligned(p) && Aligned(n) && p < n
    ensures p + 4 <= n
  {
    Ceil4Shift(p, 1);
    Ceil4Least(p + 1, n);
  }

  /** Zero bytes from `p` to the next multiple of 4. */
  method IsZeroPaddingCorrect(d: bytes, p: nat) returns (ok: bool)
    requires Ceil4(p) <= |d|
    ensures ok == PaddedAt(d, p)
  {
    var q, k := Ceil4(p), p;
    while k < q
      invariant p <= k <= q
      invariant forall m | p <= m < k :: d[m] == 0
    {
      if d[k] != 0 { return false; }
      k := k + 1;
    }
    return true;
  }

  /** The end of the padded string at `p`, if there is one. */
  method FieldEndAt(d: bytes, p: nat) returns (r: Option<nat>)
    requires Aligned(|d|) && p <= |d|
    ensures r == FieldEnd(d, p)
    ensures r.Some? ==> d[r.value] == NUL
  {
    var q := Find(d, p, NUL);
    if q == |d| { return None; }
    Ceil4Least(q + 1, |d|);
    var padded := IsZeroPaddingCorrect(d, q + 1);
    return if padded then Some(q) else None;
  }

  lemma ScanAll(d: bytes, tags: bytes, p: nat)
    ensures tags[0..] == tags && Append([], ScanArgs(d, tags, p)) == ScanArgs(d, tags, p)
  {
  }

  class Message {
    var timeTag: bits64
    var address: bytes
    var typeTags: bytes
    var arguments: seq<Slot>
    const storage: Storage
    var err: ErrorCode
    /** The values of the arguments, unless the message is in error. */
    ghost var args: seq<Arg>

    ghost predicate Valid()
      reads this, storage
    {
      && Aligned(|storage.data|) && |arguments| <= |typeTags|
      && (err == Ok ==> typeTags == Tags(args) && Holds(storage.data, arguments, args))
    }

    /** The storage is the encoding of the arguments and nothing else: true of messages built by pushing. */
    ghost predicate Built()
      reads this, storage
    {
      Valid() && err == Ok && storage.data == EncodeArgs(args)
    }

    function State(): MessageState
      reads this, storage
    {
      MessageState(timeTag, address, typeTags, arguments, storage.data, err)
    }

    constructor ()
      ensures Built() && fresh(storage) && args == []
      ensures State() == MessageState(TIME_IMMEDIATE, [], [], [], [], Ok)
    {
      storage := new Storage();
      timeTag, address, typeTags, arguments, err, args := TIME_IMMEDIATE, [], [], [], Ok, [];
    }

    /** A message with an address that is not checked. */
    constructor WithAddress(s: bytes, tt: bits64)
      ensures Built() && fresh(storage) && args == []
      ensures State() == MessageState(tt, s, [], [], [], Ok)
    {
      storage := new Storage();
      timeTag, address, typeTags, arguments, err, args := tt, s, [], [], Ok, [];
    }

    /** A message parsed from raw bytes. */
    constructor FromBytes(d: bytes, tt: bits64)
      requires Aligned(|d|)
      ensures Valid() && fresh(storage)
      ensures State() == FromRaw(d, tt)
      ensures err == Ok ==> args == ParsedArgs(d)
    {
      storage := new Storage();
      timeTag, address, typeTags, arguments, err, args := TIME_IMMEDIATE, [], [], [], Ok, [];
      new;
      BuildFromRawData(d);
      timeTag := tt;
    }

    method Clear()
      modifies this, storage
      ensures Built() && args == []
      ensures State() == MessageState(TIME_IMMEDIATE, [], [], [], [], Ok)
    {
      address, typeTags, arguments, err, timeTag, args := [], [], [], Ok, TIME_IMMEDIATE, [];
      storage.data := [];
    }

    method Init(addr: bytes, tt: bits64)
      modifies this, storage
      ensures Valid() && args == []
      ensures addr != [] && addr[0] == ADDRESS_START ==> Built()
      ensures State() == MessageState(tt, addr, [], [], [],
                           if addr == [] || addr[0] != ADDRESS_START then MalformedAddressPattern else Ok)
    {
      Clear();
      address, timeTag := addr, tt;
      if address == [] || address[0] != ADDRESS_START { err := Raise(err, MalformedAddressPattern); }
    }

    // ----- parsing

    /** The number of bytes occupied by the argument at `p`, or an error. */
    method GetArgSize(tag: byte, p: nat) returns (sz: nat)
      requires Aligned(|storage.data|) && Aligned(p) && p <= |storage.data|
      modifies this`err
      ensures old(err) != Ok ==> err == old(err) && sz == 0
      ensures old(err) == Ok ==>
                match ArgSize(storage.data, tag, p)
                case Fits(n) => err == Ok && sz == n
                case Fails(e) => err == e && sz == 0
    {
      hide Aligned, Ceil4, PaddedAt, FromWire, Find;
      var d := storage.data;
      if err != Ok { return 0; }
      sz := 0;
      if tag == TAG_TRUE || tag == TAG_FALSE {
        sz := 0;
      } else if tag == TAG_INT32 || tag == TAG_FLOAT {
        sz := 4;
      } else if tag == TAG_INT64 || tag == TAG_DOUBLE {
        sz := 8;
      } else if tag == TAG_STRING {
        var q := Find(d, p, NUL);
        if q == |d| {
          err := Raise(err, MalformedArguments);
          return 0;
        }
        sz := q - p + 1;
      } else if tag == TAG_BLOB {
        if p == |d| {
          err := Raise(err, MalformedArguments);
          return 0;
        }
        RoomForWord(p, |d|);
        var declared := Bytes2Pod(HOST, d[p..p + 4]);
        Ranges();
        sz := Add32(4, declared);
      } else {
        err := Raise(err, UnhandledTypeTags);
        return 0;
      }
      if p + sz > |d| {
        err := Raise(err, MalformedArguments);
        return 0;
      }
      Ceil4Least(p + sz, |d|);
      var padded := IsZeroPaddingCorrect(d, p + sz);
      if !padded {
        err := Raise(err, MalformedArguments);
        return 0;
      }
    }

    /** Parses a message; every read stays inside the data. */
    method BuildFromRawData(d: bytes)
      requires Aligned(|d|)
      modifies this, storage
      ensures Valid()
      ensures State() == FromRaw(d, TIME_IMMEDIATE)
      ensures err == Ok ==> args == ParsedArgs(d)
    {
      hide *;
      ParseCases(d);
      Clear();
      StateIs();
      storage.data := d;
      AlignedZero();
      var addressEnd := FieldEndAt(d, 0);
      if addressEnd.None? || d[0] != ADDRESS_START {
        RaiseIs(err, MalformedAddressPattern);
        err := Raise(err, MalformedAddressPattern);
        Done(d);
        return;
      }
      address := d[..addressEnd.value];

      var tagsBegin := Ceil4(addressEnd.value + 1);
      var tagsEnd := FieldEndAt(d, tagsBegin);
      if tagsEnd.None? || d[tagsBegin] != TAGS_START {
        RaiseIs(err, MalformedTypeTags);
        err := Raise(err, MalformedTypeTags);
        Done(d);
        return;
      }
      typeTags := d[tagsBegin..tagsEnd.value][1..];

      var start := Ceil4(tagsEnd.value + 1);
      ghost var scan := ScanArgs(d, typeTags, start);
      FinishedIs(d, address, typeTags, scan);
      var arg, iarg := ScanArguments(start);
      if iarg < |typeTags| || arg != |storage.data| {
        RaiseIs(err, MalformedArguments);
        err := Raise(err, MalformedArguments);
      }
      args := ReadArgs(d, typeTags, arguments);
      if err == Ok {
        ScannedArgsHeld(d, typeTags, start);
        ParsedArgsAre(d);
      }
      Done(d);
    }

    lemma StateIs()
      ensures State() == MessageState(timeTag, address, typeTags, arguments, storage.data, err)
    {
    }

    /** The message is what was parsed, once its fields are. */
    lemma Done(d: bytes)
      requires Aligned(|d|) && storage.data == d && timeTag == TIME_IMMEDIATE
      requires Parsed(err, address, typeTags, arguments) == ParseMessage(d)
      requires err == Ok ==> args == ParsedArgs(d) && typeTags == Tags(args) && Holds(d, arguments, args)
      ensures Valid() && State() == FromRaw(d, TIME_IMMEDIATE)
    {
      hide ParseMessage, ParsedArgs, Tags, Holds, Aligned;
    }

    /** The loop over the type tags; returns how far it got in the data and in the tags. */
    method ScanArguments(start: nat) returns (arg: nat, iarg: nat)
      requires Aligned(|storage.data|) && Aligned(start) && start <= |storage.data|
      requires err == Ok && arguments == []
      modifies this`err, this`arguments
      ensures iarg <= |typeTags|
      ensures var scan := ScanArgs(storage.data, typeTags, start);
              if err == Ok then iarg == |typeTags| && scan == Scan(Ok, arguments, arg)
              else scan.err == err && scan.slots == arguments
    {
      hide *;
      ghost var d := storage.data;
      ghost var scan := ScanArgs(d, typeTags, start);
      arg, iarg := start, 0;
      ScanAll(d, typeTags, start);
      while err == Ok && iarg < |typeTags|
        invariant iarg <= |typeTags| && Aligned(arg) && arg <= |d|
        invariant err == Ok ==> scan == Append(arguments, ScanArgs(d, typeTags[iarg..], arg))
        invariant err != Ok ==> scan.err == err && scan.slots == arguments
        decreases |typeTags| - iarg
      {
        ScanRound(d, typeTags, iarg, arg, arguments, scan);
        var len := GetArgSize(typeTags[iarg], arg);
        if err == Ok {
          arguments := arguments + [Slot(arg, len)];
          NextAligned(arg, len);
          Ceil4Shift(arg, len);
          Ceil4Least(arg + len, |d|);
          arg := arg + Ceil4(len);
        }
        iarg := iarg + 1;
      }
      if err == Ok {
        ScanDone(d, typeTags, start, arg, arguments);
      }
    }

    // ----- building

    method PushBool(b: bool)
      requires Valid()
      modifies this, storage
      ensures Valid() && args == old(args) + [if b then True else False]
      ensures old(Built()) ==> Built()
      ensures State() == old(PushedState(State(), if b then True else False, |storage.data|, []))
      ensures address == old(address) && timeTag == old(timeTag) && err == old(err)
    {
      hide Tags, Holds, EncodeArgs, Encode, Aligned, SlotHolds;
      ghost var a := if b then True else False;
      PushedBool(storage.data, b);
      if err == Ok {
        PushKeeps(storage.data, arguments, args, [], Slot(|storage.data|, |storage.data|), a);
      }
      typeTags := typeTags + [if b then TAG_TRUE else TAG_FALSE];
      arguments := arguments + [Slot(|storage.data|, |storage.data|)];
      args := args + [a];
    }

    method PushInt32(i: int32)
      requires Valid()
      modifies this, storage
      ensures Valid() && args == old(args) + [Int32(i)]
      ensures old(Built()) ==> Built()
      ensures State() == old(PushedState(State(), Int32(i), 4, Encode(Int32(i))))
      ensures address == old(address) && timeTag == old(timeTag) && err == old(err)
    {
      PushPod(TAG_INT32, 4, ToBits32(i), Int32(i));
    }

    method PushInt64(h: int64)
      requires Valid()
      modifies this, storage
      ensures Valid() && args == old(args) + [Int64(h)]
      ensures old(Built()) ==> Built()
      ensures State() == old(PushedState(State(), Int64(h), 8, Encode(Int64(h))))
      ensures address == old(address) && timeTag == old(timeTag) && err == old(err)
    {
      PushPod(TAG_INT64, 8, ToBits64(h), Int64(h));
    }

    method PushFloat(f: bits32)
      requires Valid()
      modifies this, storage
      ensures Valid() && args == old(args) + [Float(f)]
      ensures old(Built()) ==> Built()
      ensures State() == old(PushedState(State(), Float(f), 4, Encode(Float(f))))
      ensures address == old(address) && timeTag == old(timeTag) && err == old(err)
    {
      PushPod(TAG_FLOAT, 4, f, Float(f));
    }

    method PushDouble(d: bits64)
      requires Valid()
      modifies this, storage
      ensures Valid() && args == old(args) + [Double(d)]
      ensures old(Built()) ==> Built()
      ensures State() == old(PushedState(State(), Double(d), 8, Encode(Double(d))))
      ensures address == old(address) && timeTag == old(timeTag) && err == old(err)
    {
      PushPod(TAG_DOUBLE, 8, d, Double(d));
    }

    /** Appends a string; what follows a NUL inside it is not copied, but its room is made. */
    method PushStr(s: bytes)
      requires Valid() && |s| < 0x7FFF_FFFF
      modifies this, storage
      ensures Valid() && args == old(args) + [Str(CStr(s))]
      ensures old(Built()) && NUL !in s ==> Built()
      ensures State() == old(PushedState(State(), Str(CStr(s)), |s| + 1, CopiedStr(s)))
      ensures address == old(address) && timeTag == old(timeTag) && err == old(err)
    {
      hide Tags, Holds, EncodeArgs, Encode, Aligned, SlotHolds, Ceil4, CopiedStr;
      ghost var a := Str(CStr(s));
      PushedStr(storage.data, s);
      if err == Ok {
        PushKeeps(storage.data, arguments, args, CopiedStr(s), Slot(|storage.data|, |s| + 1), a);
      }
      typeTags := typeTags + [TAG_STRING];
      arguments := arguments + [Slot(|storage.data|, |s| + 1)];
      storage.AppendStr(s);
      args := args + [a];
    }

    method PushBlob(b: bytes)
      requires Valid() && |b| < 0x7FFF_FFFF
      modifies this, storage
      ensures Valid() && args == old(args) + [Blob(b)]
      ensures old(Built()) ==> Built()
      ensures State() == old(PushedState(State(), Blob(b), |b| + 4, Encode(Blob(b))))
      ensures address == old(address) && timeTag == old(timeTag) && err == old(err)
    {
      hide Tags, Holds, EncodeArgs, Encode, Aligned, SlotHolds, Ceil4, ToWire;
      ghost var a, before := Blob(b), storage.data;
      PushedBlob(storage.data, b);
      if err == Ok {
        PushKeeps(storage.data, arguments, args, Encode(a), Slot(|storage.data|, |b| + 4), a);
      }
      typeTags := typeTags + [TAG_BLOB];
      arguments := arguments + [Slot(|storage.data|, |b| + 4)];
      storage.AppendPod(4, |b|);
      storage.AppendBytes(b);
      assert storage.data == before + Encode(a);
      args := args + [a];
    }

    /** Room for a value of `width` bytes, written in wire order. */
    method PushPod(tag: byte, width: nat, v: nat, ghost a: Arg)
      requires Valid() && TagOf(a) == tag && Raw(a) == ToWire(width, v) && (width == 4 || width == 8)
      requires a.Int32? || a.Int64? || a.Float? || a.Double?
      modifies this`typeTags, this`arguments, this`args, storage
      ensures Valid() && args == old(args) + [a]
      ensures old(Built()) ==> Built()
      ensures State() == old(PushedState(State(), a, width, Encode(a)))
      ensures address == old(address) && timeTag == old(timeTag) && err == old(err)
    {
      hide Tags, Holds, EncodeArgs, Encode, Aligned, SlotHolds, Ceil4, ToWire, TagOf, Raw;
      PushedWord(storage.data, a, width, v);
      if err == Ok {
        PushKeeps(storage.data, arguments, args, Encode(a), Slot(|storage.data|, width), a);
      }
      typeTags := typeTags + [tag];
      arguments := arguments + [Slot(|storage.data|, width)];
      storage.AppendPod(width, v);
      assert storage.data == old(storage.data) + Encode(a);
      args := args + [a];
    }

    // ----- packing

    /** Appends the message to a packet; with `writeSize`, after its size. A message in error is not written. */
    method PackMessage(s: Storage, writeSize: bool)
      requires Valid() && s != storage && Aligned(|s.data|)
      modifies s
      ensures err != Ok ==> s.data == old(s.data)
      ensures err == Ok ==>
                s.data == old(s.data) + (if writeSize then SizeWord(|Packed(address, typeTags, storage.data)|) else [])
                          + Packed(address, typeTags, storage.data)
      ensures Aligned(|s.data|)
    {
      hide *;
      if err != Ok { return; }
      ghost var before, raw := s.data, Packed(address, typeTags, storage.data);
      var lAddr, lType := |address| + 1, |typeTags| + 2;
      if writeSize {
        FourIsAligned();
        s.AppendPod(4, Ceil4(lAddr) + Ceil4(lType) + Ceil4(|storage.data|));
        SizeWordIs(|raw|);
      }
      ghost var size := if writeSize then SizeWord(|raw|) else [];
      assert s.data == before + size;
      s.AppendStr(address);
      s.AppendStr([TAGS_START] + typeTags);
      s.AppendBytes(storage.data);
      PackedIs(address, typeTags, storage.data);
      Regrouped(before + size, CopiedStr(address), CopiedStr([TAGS_START] + typeTags), Pad(storage.data));
    }

    // ----- reading

    /** A reader of the arguments, in error unless the address fully matches the pattern. */
    method Match(test: bytes) returns (r: ArgReader)
      requires Valid()
      ensures fresh(r) && r.msg == this && r.Ready()
      ensures r.State() == Start(err, PatternSpec.FullMatch(test, address))
    {
      var ok := PatternMatcher.FullPatternMatch(CStr(test), CStr(address));
      SameCStr(test, address);
      r := new ArgReader(this, if ok then Ok else PatternMismatch);
    }

    /** A reader that is in error unless `test` matches the beginning of the address, taken as a pattern. */
    method PartialMatch(test: bytes) returns (r: ArgReader)
      requires Valid()
      ensures fresh(r) && r.msg == this && r.Ready()
      ensures r.State() == Start(err, PatternSpec.PartialMatch(address, test))
    {
      var ok := PatternMatcher.PartialPatternMatch(CStr(address), CStr(test));
      SameCStr(address, test);
      r := new ArgReader(this, if ok then Ok else PatternMismatch);
    }
  }

  lemma SameCStr(pattern: bytes, path: bytes)
    ensures PatternSpec.FullMatch(CStr(pattern), CStr(path)) == PatternSpec.FullMatch(pattern, path)
    ensures PatternSpec.PartialMatch(CStr(pattern), CStr(path)) == PatternSpec.PartialMatch(pattern, path)
  {
    hide PatternSpec.Walk;
    assert CStr(CStr(pattern)) == CStr(pattern) && CStr(CStr(path)) == CStr(path);
  }

  /** What a slot gives when its argument is read from the storage. */
  lemma SlotReads(d: bytes, slot: Slot, a: Arg)
    requires SlotHolds(d, slot, a)
    ensures a.Int32? || a.Float? ==> slot.pos + 4 <= |d|
    ensures a.Int64? || a.Double? ==> slot.pos + 8 <= |d|
    ensures a.Int32? ==> FromWire(d[slot.pos..slot.pos + 4]) == ToBits32(a.i) && FromBits32(ToBits32(a.i)) == a.i
    ensures a.Int64? ==> FromWire(d[slot.pos..slot.pos + 8]) == ToBits64(a.h) && FromBits64(ToBits64(a.h)) == a.h
    ensures a.Float? ==> FromWire(d[slot.pos..slot.pos + 4]) == a.f
    ensures a.Double? ==> FromWire(d[slot.pos..slot.pos + 8]) == a.d
    ensures a.Blob? ==> 4 <= slot.size && slot.pos + slot.size <= |d| && d[slot.pos + 4..slot.pos + slot.size] == a.b
  {
    WireInt(a);
    hide FromWire, ToWire;
    if a.Blob? {
      assert Raw(a)[4..] == a.b;
      assert d[slot.pos + 4..slot.pos + slot.size] == d[slot.pos..slot.pos + slot.size][4..];
    }
  }

  lemma SlotReadsStr(d: bytes, slot: Slot, a: Arg)
    requires SlotHolds(d, slot, a) && a.Str?
    ensures slot.pos <= |d| && CStr(d[slot.pos..]) == a.s
  {
    var t := d[slot.pos..];
    var field := d[slot.pos..slot.pos + |a.s| + 1];
    assert t[..|a.s|] == field[..|a.s|] == a.s;
    assert t[|a.s|] == field[|a.s|] == NUL;
    forall k | 0 <= k < |a.s| ensures t[k] != NUL {
      assert t[..|a.s|][k] == t[k];
    }
    FindAt(t, 0, NUL, |a.s|);
  }

  lemma TagDetermines(a: Arg)
    ensures TagOf(a) == TAG_INT32 <==> a.Int32?
    ensures TagOf(a) == TAG_INT64 <==> a.Int64?
    ensures TagOf(a) == TAG_FLOAT <==> a.Float?
    ensures TagOf(a) == TAG_DOUBLE <==> a.Double?
    ensures TagOf(a) == TAG_STRING <==> a.Str?
    ensures TagOf(a) == TAG_BLOB <==> a.Blob? || a == OverflowBlob
    ensures TagOf(a) == TAG_TRUE <==> a.True?
    ensures TagOf(a) == TAG_FALSE <==> a.False?
  {
  }

  /** Takes arguments from the front of a message; keeps its own error code. */
  class ArgReader {
    const msg: Message
    var err: ErrorCode
    var argIdx: nat

    ghost predicate Ready()
      reads this, msg, msg.storage
    {
      msg.Valid() && (err == Ok ==> msg.err == Ok)
    }

    function State(): Cursor
      reads this
    {
      Cursor(err, argIdx)
    }

    /** The reader's state after a pop, as a step on the message's type tags. */
    ghost function After(pop: Pop): Cursor
      requires Ready()
      reads this, msg, msg.storage
    {
      Step(|msg.arguments|, msg.typeTags, State(), pop)
    }

    constructor (m: Message, e: ErrorCode)
      requires m.Valid()
      ensures msg == m && Ready()
      ensures State() == Cursor(if e != Ok && m.err == Ok then e else m.err, 0)
    {
      msg := m;
      err := if e != Ok && m.err == Ok then e else m.err;
      argIdx := 0;
    }

    method NbArgRemaining() returns (n: int)
      requires Ready()
      ensures n == Remaining(|msg.arguments|, State())
    {
      n := |msg.arguments| - argIdx;
      if n < 0 { n := n + SIZE_RANGE; }
    }

    method IsOkNoMoreArgs() returns (b: bool)
      requires Ready()
      ensures b == (err == Ok && Remaining(|msg.arguments|, State()) == 0)
    {
      var n := NbArgRemaining();
      return err == Ok && n == 0;
    }

    /** The tag of the next argument, or -1 and an error when there is none. */
    method CurrentTypeTag() returns (t: int)
      requires Ready()
      modifies this`err
      ensures Ready()
      ensures t == if old(err) == Ok && argIdx < |msg.typeTags| then msg.typeTags[argIdx] else -1
      ensures err == if t == -1 then Raise(old(err), NotEnoughArg) else old(err)
    {
      if err == Ok && argIdx < |msg.typeTags| { return msg.typeTags[argIdx]; }
      err := Raise(err, NotEnoughArg);
      return -1;
    }

    /** Whether the next argument has the given type; if so, its slot holds a value of that type. */
    method Precheck(tag: byte) returns (ok: bool)
      requires Ready()
      modifies this`err
      ensures Ready() && ok == (err == Ok)
      ensures err == if argIdx >= |msg.arguments| then Raise(old(err), NotEnoughArg)
                     else if old(err) == Ok && msg.typeTags[argIdx] != tag then TypeMismatch
                     else old(err)
      ensures ok ==> argIdx < |msg.arguments| == |msg.args| && TagOf(msg.args[argIdx]) == tag
                     && SlotHolds(msg.storage.data, msg.arguments[argIdx], msg.args[argIdx])
    {
      hide SlotHolds, TagOf, Aligned;
      if argIdx >= |msg.arguments| {
        err := Raise(err, NotEnoughArg);
      } else if err == Ok {
        var t := CurrentTypeTag();
        if t != tag { err := Raise(err, TypeMismatch); }
      }
      return err == Ok;
    }

    /** Takes a value of `width` bytes; zero in case of an error. */
    method PopPod(tag: byte, width: nat) returns (v: nat)
      requires Ready()
      requires || (width == 4 && (tag == TAG_INT32 || tag == TAG_FLOAT))
               || (width == 8 && (tag == TAG_INT64 || tag == TAG_DOUBLE))
      modifies this
      ensures Ready()
      ensures err == if old(argIdx) >= |msg.arguments| then Raise(old(err), NotEnoughArg)
                     else if old(err) == Ok && msg.typeTags[old(argIdx)] != tag then TypeMismatch
                     else old(err)
      ensures argIdx == if err == Ok then old(argIdx) + 1 else old(argIdx)
      ensures err != Ok ==> v == 0
      ensures err == Ok ==>
                && old(argIdx) < |msg.args| && TagOf(msg.args[old(argIdx)]) == tag
                && var a := msg.args[old(argIdx)];
                   match a
                   case Int32(i) => v == ToBits32(i) && FromBits32(v) == i
                   case Int64(h) => v == ToBits64(h) && FromBits64(v) == h
                   case Float(f) => v == f
                   case Double(d) => v == d
                   case _ => false
      ensures v < if width == 4 then RANGE32 else RANGE64
    {
      hide SlotHolds, Aligned, FromWire;
      var ok := Precheck(tag);
      if ok {
        ghost var a := msg.args[argIdx];
        TagDetermines(a);
        SlotReads(msg.storage.data, msg.arguments[argIdx], a);
        var beg := msg.arguments[argIdx].pos;
        Ranges();
        v := Bytes2Pod(HOST, msg.storage.data[beg..beg + width]);
        argIdx := argIdx + 1;
      } else {
        v := 0;
      }
    }

    method PopInt32() returns (i: int32)
      requires Ready()
      modifies this
      ensures Ready() && State() == old(After(AsInt32))
      ensures err != Ok ==> i == 0
      ensures err == Ok ==> old(argIdx) < |msg.args| && msg.args[old(argIdx)] == Int32(i)
    {
      var v := PopPod(TAG_INT32, 4);
      i := FromBits32(v);
    }

    method PopInt64() returns (h: int64)
      requires Ready()
      modifies this
      ensures Ready() && State() == old(After(AsInt64))
      ensures err != Ok ==> h == 0
      ensures err == Ok ==> old(argIdx) < |msg.args| && msg.args[old(argIdx)] == Int64(h)
    {
      var v := PopPod(TAG_INT64, 8);
      h := FromBits64(v);
    }

    method PopFloat() returns (f: bits32)
      requires Ready()
      modifies this
      ensures Ready() && State() == old(After(AsFloat))
      ensures err != Ok ==> f == 0
      ensures err == Ok ==> old(argIdx) < |msg.args| && msg.args[old(argIdx)] == Float(f)
    {
      f := PopPod(TAG_FLOAT, 4);
    }

    method PopDouble() returns (d: bits64)
      requires Ready()
      modifies this
      ensures Ready() && State() == old(After(AsDouble))
      ensures err != Ok ==> d == 0
      ensures err == Ok ==> old(argIdx) < |msg.args| && msg.args[old(argIdx)] == Double(d)
    {
      d := PopPod(TAG_DOUBLE, 8);
    }

    /** Takes a string; in case of an error the caller's string stays as it was. */
    method PopStr(was: bytes) returns (s: bytes)
      requires Ready()
      modifies this
      ensures Ready() && State() == old(After(AsStr))
      ensures err != Ok ==> s == was
      ensures err == Ok ==> old(argIdx) < |msg.args| && msg.args[old(argIdx)] == Str(s)
    {
      hide SlotHolds, Aligned;
      s := was;
      var ok := Precheck(TAG_STRING);
      if ok {
        TagDetermines(msg.args[argIdx]);
        SlotReadsStr(msg.storage.data, msg.arguments[argIdx], msg.args[argIdx]);
        s := CStr(msg.storage.data[msg.arguments[argIdx].pos..]);
        argIdx := argIdx + 1;
      }
    }

    /** Takes a blob. There must not be an overflowing one at this place: its end is before its start. */
    method PopBlob(was: bytes) returns (b: bytes)
      requires Ready()
      requires err == Ok && argIdx < |msg.args| ==> msg.args[argIdx] != OverflowBlob
      modifies this
      ensures Ready() && State() == old(After(AsBlob))
      ensures err != Ok ==> b == was
      ensures err == Ok ==> old(argIdx) < |msg.args| && msg.args[old(argIdx)] == Blob(b)
    {
      hide SlotHolds, Aligned;
      b := was;
      var ok := Precheck(TAG_BLOB);
      if ok {
        TagDetermines(msg.args[argIdx]);
        SlotReads(msg.storage.data, msg.arguments[argIdx], msg.args[argIdx]);
        var beg := msg.arguments[argIdx].pos;
        b := msg.storage.data[beg + 4..beg + msg.arguments[argIdx].size];
        argIdx := argIdx + 1;
      }
    }

    /** Takes a boolean; moves on even in case of an error. */
    method PopBool() returns (b: bool)
      requires Ready()
      modifies this
      ensures Ready() && State() == old(After(AsBool))
      ensures err != Ok ==> !b
      ensures err == Ok ==> old(argIdx) < |msg.args| && msg.args[old(argIdx)] == if b then True else False
    {
      hide SlotHolds, Aligned;
      b := false;
      if argIdx >= |msg.arguments| {
        err := Raise(err, NotEnoughArg);
      } else {
        if err == Ok { TagDetermines(msg.args[argIdx]); }
        var t := CurrentTypeTag();
        if t == TAG_TRUE {
          b := true;
        } else if t == TAG_FALSE {
          b := false;
        } else {
          err := Raise(err, TypeMismatch);
        }
      }
      argIdx := argIdx + 1;
    }

    /** Skips whatever comes next. */
    method Pop()
      requires Ready()
      modifies this
      ensures Ready() && State() == old(After(AsAny))
    {
      if argIdx >= |msg.arguments| {
        err := Raise(err, NotEnoughArg);
      } else {
        argIdx := argIdx + 1;
      }
    }
  }
}
