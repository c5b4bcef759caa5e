/**
 The packet writer, with its stack of bundle positions and its back-patched sizes, and the packet
 reader, a recursive descent over byte ranges.
 */
module Packets {
  import opened Bytes
  import opened Pod
  import opened MessageFormat
  import opened MessageLaws
  import opened Messages
  import opened PacketFormat
  import opened WriterFormat
  import opened WriterLaws
  import opened ReaderLaws

  const BUNDLE_NAME: bytes := [35, 98, 117, 110, 100, 108, 101]  // "#bundle"

  /** The writer's fields stand for what the calls so far have built. */
  predicate Represents(data: bytes, bundles: seq<nat>, err: ErrorCode, w: Written) {
    && Aligned(|data|)
    && data == FlatWritten(w)
    && bundles == Starts(|FlatDone(w.done)|, w.open)
    && err == w.err
    && (FlatDone(w.done) == [] <==> w.done == [])
  }

  lemma SameBundles(data: bytes, bundles: seq<nat>, err: ErrorCode, w: Written)
    requires Represents(data, bundles, err, w)
    ensures |bundles| == |w.open| && Aligned(|data|) && err == w.err
  {
  }

  /** The writer sees that nothing more may be added by its storage not being empty while no bundle is open. */
  lemma FullIsSeen(data: bytes, bundles: seq<nat>, err: ErrorCode, w: Written)
    requires Represents(data, bundles, err, w)
    ensures Full(w) <==> |data| != 0 && |bundles| == 0
  {
    hide Starts, FlatDone, Aligned;
    if w.open == [] {
      NothingOpen(0);
    }
  }

  lemma HeaderIs(tt: bits64)
    ensures Header(tt) == CopiedStr(BUNDLE_NAME) + ToWire(8, tt)
    ensures Aligned(|Header(tt)|) && Aligned(8)
  {
    assert NUL !in BUNDLE_NAME;
    assert Ceil4(8) == 8;
    assert CopiedStr(BUNDLE_NAME) == BUNDLE_TAG;
  }

  lemma RepresentsMeans(data: bytes, bundles: seq<nat>, err: ErrorCode, w: Written)
    ensures Represents(data, bundles, err, w) <==>
            && Aligned(|data|)
            && data == FlatWritten(w)
            && bundles == Starts(|FlatDone(w.done)|, w.open)
            && err == w.err
            && (FlatDone(w.done) == [] <==> w.done == [])
  {
  }

  lemma StartRepresents(data: bytes, bundles: seq<nat>, err: ErrorCode, w: Written, tt: bits64)
    requires Represents(data, bundles, err, w)
    ensures var hole := Hole(|bundles|);
            Represents(data + hole + Header(tt), bundles + [|data| + |hole|], err, Apply(w, Start(tt)))
  {
    hide *;
    var hole, w' := Hole(|bundles|), Apply(w, Start(tt));
    RepresentsMeans(data, bundles, err, w);
    RepresentsMeans(data + hole + Header(tt), bundles + [|data| + |hole|], err, w');
    SameBundles(data, bundles, err, w);
    StartBytes(w, tt);
    StartIs(w, tt);
    HoleIs(|bundles|);
    FourIsAligned();
    HeaderIs(tt);
    AlignedAdd(|data|, 4);
    AlignedAdd(|data| + |hole|, |Header(tt)|);
  }

  lemma AddRepresents(data: bytes, bundles: seq<nat>, err: ErrorCode, w: Written, raw: bytes)
    requires Represents(data, bundles, err, w) && !Full(w) && raw != [] && Aligned(|raw|)
    ensures Represents(data + (if |bundles| > 0 then SizeWord(|raw|) else []) + raw, bundles, err, Apply(w, Add(raw)))
  {
    hide *;
    var data' := data + (if |bundles| > 0 then SizeWord(|raw|) else []) + raw;
    RepresentsMeans(data, bundles, err, w);
    RepresentsMeans(data', bundles, err, Apply(w, Add(raw)));
    AddBytes(w, raw);
    AddIs(w, raw);
    FourIsAligned();
    AlignedAdd(|data|, 4);
    AlignedAdd(|data|, |raw|);
    AlignedAdd(|data| + 4, |raw|);
  }

  lemma AddIs(w: Written, raw: bytes)
    requires !Full(w) && raw != []
    ensures Apply(w, Add(raw)) == PutIn(w, Leaf(raw)) && PutIn(w, Leaf(raw)).err == w.err
    ensures |PutIn(w, Leaf(raw)).open| == |w.open|
    ensures (FlatDone(w.done) == [] <==> w.done == []) ==>
              (FlatDone(PutIn(w, Leaf(raw)).done) == [] <==> PutIn(w, Leaf(raw)).done == [])
  {
    DoneSnoc(w.done, Leaf(raw));
    assert Flat(Leaf(raw)) == raw;
    hide FlatDone;
  }

  lemma ErrorRepresents(data: bytes, bundles: seq<nat>, err: ErrorCode, w: Written, e: ErrorCode)
    requires Represents(data, bundles, err, w)
    ensures Represents(data, bundles, e, w.(err := e))
    ensures FlatWritten(w.(err := e)) == FlatWritten(w)
  {
    hide FlatDone, FlatOpen, Starts, Aligned;
  }

  lemma ClosedLength(f: Frame)
    ensures f.elems == [] ==> |Flat(Closed(f))| == 20
    ensures f.elems != [] ==> |Flat(Closed(f))| == 16 + |FlatElems(f.elems)| && |FlatElems(f.elems)| >= 4
  {
    ClosedBytes(f);
    if f.elems != [] {
      GoodElemsAreLong(f.elems);
    } else {
      assert FlatElems([]) == [];
    }
  }

  /** The storage once a bundle that is empty so far has been given its zero word. */
  function Completed(data: bytes, start: nat): bytes
    requires start <= |data|
  {
    if |data| - start == 16 then data + ToWire(4, 0) else data
  }

  /** The storage once the size of the bundle that starts at `start` is patched in before it. */
  function Patched(data: bytes, start: nat): (r: bytes)
    requires 4 <= start <= |data|
    ensures |r| == |data|
  {
    data[..start - 4] + SizeWord(|data| - start) + data[start..]
  }

  /** What is done after a bundle is closed. */
  lemma EndDone(w: Written)
    requires w.open != [] && (FlatDone(w.done) == [] <==> w.done == [])
    ensures var w' := Apply(w, End);
            (FlatDone(w'.done) == [] <==> w'.done == []) && w'.err == w.err
  {
    var n := |w.open| - 1;
    ClosedLength(w.open[n]);
    DoneSnoc(w.done, Closed(w.open[n]));
    hide FlatDone, Flat, Closed;
  }

  lemma CompletedIs(data: bytes, start: nat)
    requires start <= |data|
    ensures Completed(data, start) == data + (if |data| - start == 16 then Zeros(4) else [])
  {
    ZeroWord();
    hide ToWire;
  }

  lemma PatchedIs(before: bytes, bundle: bytes)
    ensures Patched(before + Zeros(4) + bundle, |before| + 4) == before + SizeWord(|bundle|) + bundle
  {
    hide SizeWord;
    var data := before + Zeros(4) + bundle;
    assert data[..|before|] == before && data[|before| + 4..] == bundle;
  }

  /**
   Closing the innermost bundle: the zero word of an empty bundle, and the size in front of a nested one,
   turn what stood for the open bundle into what stands for its recursive encoding.
   */
  lemma EndRepresents(data: bytes, bundles: seq<nat>, err: ErrorCode, w: Written, start: nat, whole: bytes)
    requires Represents(data, bundles, err, w) && bundles != [] && start == bundles[|bundles| - 1]
    requires start <= |data| ==> whole == Completed(data, start)
    ensures start <= |data| && (|bundles| > 1 ==> 4 <= start) && |data| <= |whole|
    ensures Represents(if |bundles| > 1 then Patched(whole, start) else whole,
                       bundles[..|bundles| - 1], err, Apply(w, End))
  {
    hide *;
    SameBundles(data, bundles, err, w);
    var n := |bundles| - 1;
    var f := w.open[n];
    var before := FlatDone(w.done) + FlatOpen(w.open[..n]);
    var bundle := Flat(Closed(f));
    RepresentsMeans(data, bundles, err, w);
    EndBytes(w);
    ClosedLength(f);
    HoleIs(n);
    CompletedIs(data, start);
    assert whole == before + Hole(n) + bundle;
    var result := if n > 0 then Patched(whole, start) else whole;
    if n > 0 {
      PatchedIs(before, bundle);
    }
    assert result == before + (if n == 0 then [] else SizeWord(|bundle|)) + bundle;
    EndDone(w);
    EndAligned(data, whole, result, start);
    RepresentsMeans(result, bundles[..n], err, Apply(w, End));
  }

  lemma EndAligned(data: bytes, whole: bytes, result: bytes, start: nat)
    requires Aligned(|data|) && start <= |data| && whole == Completed(data, start) && |result| == |whole|
    ensures Aligned(|result|)
  {
    AlignedAdd(|data|, 4);
  }

  lemma CompletedWith(data: bytes, start: nat)
    requires start <= |data|
    ensures Completed(data, start) == if |data| - start == 16 then data + ToWire(4, 0) else data
  {
  }

  lemma PatchedWith(data: bytes, start: nat)
    requires 4 <= start <= |data|
    ensures Patched(data, start) == data[..start - 4] + ToWire(4, |data| - start) + data[start..]
  {
  }

  lemma EndWithoutStart(w: Written)
    requires w.open == []
    ensures Apply(w, End) == w.(err := Raise(w.err, InvalidBundle))
  {
  }

  /** A message as a writer call: the bytes it is packed to, or its error. */
  function MessageCall(m: MessageState): Call {
    if m.err == Ok then Add(Packed(m.address, m.typeTags, m.data)) else AddFailed(m.err)
  }

  lemma CallOf(m: MessageState)
    ensures Packed(m.address, m.typeTags, m.data) != [] && Aligned(|Packed(m.address, m.typeTags, m.data)|)
    ensures m.err == Ok ==> MessageCall(m) == Add(Packed(m.address, m.typeTags, m.data))
    ensures m.err != Ok ==> MessageCall(m) == AddFailed(m.err)
  {
    hide Aligned;
    assert |Packed(m.address, m.typeTags, m.data)| > 0;
  }

  lemma MessageCallIsSound(m: MessageState)
    ensures Sound(MessageCall(m))
  {
    CallOf(m);
    hide Packed, Aligned, MessageCall;
  }

  lemma Refused(w: Written, call: Call, m: MessageState)
    requires call == if m.err == Ok then Add(Packed(m.address, m.typeTags, m.data)) else AddFailed(m.err)
    requires Full(w) || m.err != Ok
    ensures var refused := if Full(w) then Raise(w.err, BundleRequiredForMultiMessages) else w.err;
            Apply(w, call) == w.(err := if m.err != Ok then Raise(refused, m.err) else refused)
  {
    hide Full, Packed;
  }

  lemma MessageAdded(data: bytes, bundles: seq<nat>, err: ErrorCode, w: Written, m: MessageState)
    requires Represents(data, bundles, err, w)
    ensures var raw := Packed(m.address, m.typeTags, m.data);
            var refused := if Full(w) then Raise(err, BundleRequiredForMultiMessages) else err;
            Represents(if Full(w) || m.err != Ok then data
                       else data + (if |bundles| > 0 then SizeWord(|raw|) else []) + raw,
                       bundles, if m.err != Ok then Raise(refused, m.err) else refused, Apply(w, MessageCall(m)))
  {
    hide *;
    var raw := Packed(m.address, m.typeTags, m.data);
    SameBundles(data, bundles, err, w);
    CallOf(m);
    if m.err == Ok && !Full(w) {
      AddRepresents(data, bundles, err, w, raw);
    } else {
      var refused := if Full(w) then Raise(err, BundleRequiredForMultiMessages) else err;
      ErrorRepresents(data, bundles, err, w, if m.err != Ok then Raise(refused, m.err) else refused);
      Refused(w, MessageCall(m), m);
    }
  }

  lemma LowWord(n: nat)
    ensures n % RANGE32 % 4 == n % 4
  {
    assert n == n / RANGE32 * RANGE32 + n % RANGE32;
  }

  lemma StateIs(m: Message)
    ensures m.State() == MessageState(m.timeTag, m.address, m.typeTags, m.arguments, m.storage.data, m.err)
  {
  }

  class PacketWriter {
    /** The start of every open bundle in the storage. */
    var bundles: seq<nat>
    const storage: Storage
    var err: ErrorCode
    /** What the calls so far have built. */
    ghost var written: Written

    ghost predicate Valid()
      reads this, storage
    {
      Represents(storage.data, bundles, err, written)
    }

    lemma ValidMeans()
      ensures Valid() <==> Represents(storage.data, bundles, err, written)
    {
    }

    constructor ()
      ensures Valid() && fresh(storage) && written == INITIAL
    {
      storage := new Storage();
      bundles, err, written := [], Ok, INITIAL;
    }

    /** Starts over. */
    method Init()
      modifies this, storage
      ensures Valid() && written == INITIAL
    {
      bundles, err, written := [], Ok, INITIAL;
      storage.data := [];
    }

    method StartBundle(tt: bits64)
      requires Valid()
      modifies this, storage
      ensures Valid() && written == Apply(old(written), Start(tt))
    {
      hide Represents, Apply, Header, CopiedStr, ToWire, Aligned, Ceil4;
      StartRepresents(storage.data, bundles, err, written, tt);
      SameBundles(storage.data, bundles, err, written);
      HeaderIs(tt);
      written := Apply(written, Start(tt));
      if |bundles| > 0 {
        FourIsAligned();
        var size := storage.GetBytes(4);
      }
      var start := |storage.data|;
      storage.AppendStr(BUNDLE_NAME);
      bundles := bundles + [start];
      storage.AppendPod(8, tt);
      assert storage.data == old(storage.data) + Hole(old(|bundles|)) + Header(tt);
    }

    method EndBundle()
      requires Valid()
      modifies this, storage
      ensures Valid() && written == Apply(old(written), End)
    {
      hide Represents, Completed, Patched, Apply, ToWire, Aligned, Ceil4;
      SameBundles(storage.data, bundles, err, written);
      ghost var data, w := storage.data, written;
      if |bundles| > 0 {
        var start := bundles[|bundles| - 1];
        EndRepresents(data, bundles, err, w, start, if start <= |data| then Completed(data, start) else data);
        CompletedWith(data, start);
        if |storage.data| - start == 16 {
          FourIsAligned();
          storage.AppendPod(4, 0);
        }
        ghost var whole := Completed(data, start);
        assert storage.data == whole;
        if |bundles| > 1 {
          PatchedWith(storage.data, start);
          var size := Pod2Bytes(HOST, 4, |storage.data| - start);
          storage.Write(start - 4, size);
          assert storage.data == Patched(whole, start);
        }
        bundles := bundles[..|bundles| - 1];
      } else {
        EndWithoutStart(w);
        ErrorRepresents(data, bundles, err, w, Raise(err, InvalidBundle));
        err := Raise(err, InvalidBundle);
      }
      written := Apply(w, End);
    }

    /** Adds a message to the innermost open bundle, or alone to an empty packet. */
    method AddMessage(msg: Message)
      requires Valid() && msg.Valid() && msg.storage != storage
      modifies this, storage
      ensures Valid() && written == Apply(old(written), MessageCall(msg.State()))
    {
      hide *;
      ghost var m, w, data, e := msg.State(), written, storage.data, err;
      ghost var raw := Packed(m.address, m.typeTags, m.data);
      ValidMeans();
      StateIs(msg);
      FullIsSeen(data, bundles, e, w);
      SameBundles(data, bundles, e, w);
      if |storage.data| != 0 && |bundles| == 0 {
        err := Raise(err, BundleRequiredForMultiMessages);
      } else {
        msg.PackMessage(storage, |bundles| > 0);
      }
      assert storage.data == if Full(w) || m.err != Ok then data
                             else data + (if |bundles| > 0 then SizeWord(|raw|) else []) + raw;
      if msg.err != Ok {
        err := Raise(err, msg.err);
      }
      MessageAdded(data, bundles, e, w, m);
      written := Apply(w, MessageCall(m));
      ValidMeans();
    }

    /** The size of the packet; zero if its construction failed. */
    function PacketSize(): bits32
      reads this, storage
    {
      if err != Ok then 0 else |storage.data| % RANGE32
    }

    /** The size is a multiple of 4, and it is that of the storage as long as this is below 2^32. */
    lemma SizeIsMultipleOf4()
      requires Valid()
      ensures PacketSize() % 4 == 0
      ensures err == Ok && |storage.data| < RANGE32 ==> PacketSize() == |storage.data|
    {
      hide *;
      ValidMeans();
      RepresentsMeans(storage.data, bundles, err, written);
      SizeIs();
      AlignedMeans(|storage.data|);
      LowWord(|storage.data|);
    }

    lemma SizeIs()
      ensures PacketSize() == if err != Ok then 0 else |storage.data| % RANGE32
    {
    }

    /** The bytes of the packet, if its construction did not fail. */
    function PacketData(): Option<bytes>
      reads this, storage
    {
      if err != Ok then None else Some(storage.data)
    }
  }

  // ----- the reader

  lemma SliceOfSlice(d: bytes, a: nat, b: nat, i: nat, j: nat)
    requires a <= b <= |d| && i <= j <= b - a
    ensures d[a..b][i..j] == d[a + i..a + j]
  {
    var s, t := d[a..b][i..j], d[a + i..a + j];
    forall k | 0 <= k < j - i ensures s[k] == t[k] {
      assert s[k] == d[a..b][i + k] && d[a..b][i + k] == d[a + i + k];
    }
  }

  lemma BundleRange(d: bytes, beg: nat, end: nat, tt: bits64)
    requires beg + 20 <= end <= |d| && d[beg] == HASH && d[beg..beg + 8] == BUNDLE_TAG && Aligned(end - beg)
    ensures FromWire(d[beg + 8..beg + 16]) < RANGE64 && Aligned(end - (beg + 16))
    ensures ReadRange(d[beg..end], tt) == ReadElems(d[beg + 16..end], FromWire(d[beg + 8..beg + 16]))
  {
    var range := d[beg..end];
    ToFromWire(d[beg + 8..beg + 16]);
    Ranges();
    AlignedAdd(16, end - (beg + 16));
    SliceOfSlice(d, beg, end, 0, 8);
    SliceOfSlice(d, beg, end, 8, 16);
    SliceOfSlice(d, beg, end, 16, end - beg);
    assert range[..8] == range[0..8] && range[16..] == range[16..end - beg];
    hide ReadElems, FromWire, ToWire;
  }

  lemma NoBundleRange(d: bytes, beg: nat, end: nat, tt: bits64)
    requires beg < end <= |d| && d[beg] == HASH && !(end - beg >= 20 && d[beg..beg + 8] == BUNDLE_TAG)
    ensures ReadRange(d[beg..end], tt) == Reading([], InvalidBundle)
  {
    var range := d[beg..end];
    if |range| >= 20 {
      assert range[..8] == d[beg..beg + 8];
    }
  }

  lemma MessageRange(d: bytes, beg: nat, end: nat, tt: bits64)
    requires beg < end <= |d| && d[beg] != HASH
    ensures ReadRange(d[beg..end], tt) == Reading([FromRaw(d[beg..end], tt)], FromRaw(d[beg..end], tt).err)
  {
    hide FromRaw;
  }

  lemma StandsEmpty()
    ensures Stands([], [])
  {
  }

  lemma JoinNothing(r: Reading)
    ensures Join([], r) == r
  {
  }

  lemma RoomForSize(n: nat)
    requires Aligned(n) && n > 0
    ensures n >= 4
  {
  }

  lemma ElementSize(d: bytes, pos: nat, end: nat, sz: nat)
    requires pos + 4 <= end <= |d| && sz == FromWire(d[pos..pos + 4])
    ensures sz == Word(d[pos..end], 0) < RANGE32
  {
    hide FromWire;
    assert d[pos..end][0..4] == d[pos..pos + 4];
  }

  lemma BadElement(d: bytes, pos: nat, end: nat, tt: bits64, msgs: seq<MessageState>)
    requires pos + 4 <= end <= |d|
    requires !Aligned(Word(d[pos..end], 0)) || pos + 4 + Word(d[pos..end], 0) > end
    ensures Join(msgs, ReadElems(d[pos..end], tt)) == Reading(msgs, InvalidBundle)
  {
    hide Word, Aligned;
  }

  /** An element of proper size is read first; then the rest of the bundle, if there is one and no error. */
  lemma ElementRead(d: bytes, pos: nat, end: nat, tt: bits64, sz: nat, msgs: seq<MessageState>)
    requires pos + 4 + sz <= end <= |d| && sz == Word(d[pos..end], 0) && Aligned(sz) && Aligned(end - pos)
    ensures Aligned(end - (pos + 4 + sz))
    ensures var first := ReadRange(d[pos + 4..pos + 4 + sz], tt);
            Join(msgs, ReadElems(d[pos..end], tt)) ==
            if first.err != Ok || pos + 4 + sz == end then Reading(msgs + first.msgs, first.err)
            else Join(msgs + first.msgs, ReadElems(d[pos + 4 + sz..end], tt))
  {
    hide *;
    FourIsAligned();
    AlignedAdd(4, sz);
    AlignedAdd(4 + sz, end - (pos + 4 + sz));
    ElementSlices(d, pos, end, sz);
    ElementUnfolds(d[pos..end], tt);
    JoinFirst(msgs, ReadRange(d[pos + 4..pos + 4 + sz], tt), ReadElems(d[pos + 4 + sz..end], tt));
  }

  lemma ElementSlices(d: bytes, pos: nat, end: nat, sz: nat)
    requires pos + 4 + sz <= end <= |d|
    ensures d[pos..end][4..4 + sz] == d[pos + 4..pos + 4 + sz] && d[pos..end][4 + sz..] == d[pos + 4 + sz..end]
  {
    SliceOfSlice(d, pos, end, 4, 4 + sz);
    SliceOfSlice(d, pos, end, 4 + sz, end - pos);
    assert d[pos..end][4 + sz..] == d[pos..end][4 + sz..end - pos];
  }

  lemma ElementUnfolds(range: bytes, tt: bits64)
    requires |range| >= 4 && Aligned(Word(range, 0)) && 4 + Word(range, 0) <= |range|
    ensures var next := 4 + Word(range, 0);
            var first := ReadRange(range[4..next], tt);
            ReadElems(range, tt) ==
            if first.err != Ok || next == |range| then first
            else Reading(first.msgs + ReadElems(range[next..], tt).msgs, ReadElems(range[next..], tt).err)
  {
    hide ReadRange, Word, Aligned;
  }

  lemma JoinFirst(msgs: seq<MessageState>, first: Reading, rest: Reading)
    ensures Join(msgs, first) == Reading(msgs + first.msgs, first.err)
    ensures Join(msgs, Reading(first.msgs + rest.msgs, rest.err)) == Join(msgs + first.msgs, rest)
  {
  }

  /** The message objects stand, one by one, for the messages that were read. */
  ghost predicate Stands(ms: seq<Message>, msgs: seq<MessageState>)
    reads ms, set m | m in ms :: m.storage
  {
    |ms| == |msgs| && forall i | 0 <= i < |ms| ::
      ms[i].Valid() && ms[i].State() == msgs[i] && (ms[i].err == Ok ==> ms[i].args == ParsedArgs(msgs[i].data))
  }

  lemma StandsJoin(ms: seq<Message>, msgs: seq<MessageState>, more: seq<Message>, moreMsgs: seq<MessageState>)
    requires Stands(ms, msgs) && Stands(more, moreMsgs)
    ensures Stands(ms + more, msgs + moreMsgs)
  {
    hide ParsedArgs;
  }

  lemma StandsLength(ms: seq<Message>, msgs: seq<MessageState>)
    requires Stands(ms, msgs)
    ensures |ms| == |msgs|
  {
  }

  lemma StandsAt(ms: seq<Message>, msgs: seq<MessageState>, k: nat)
    requires Stands(ms, msgs) && k < |msgs|
    ensures |ms| == |msgs| && ms[k].Valid() && ms[k].State() == msgs[k] && msgs[k] in msgs
    ensures ms[k].err == Ok ==> ms[k].args == ParsedArgs(msgs[k].data)
  {
    hide ParsedArgs;
  }

  /** Some messages followed by what the rest of a bundle reads as. */
  function Join(msgs: seq<MessageState>, r: Reading): Reading {
    Reading(msgs + r.msgs, r.err)
  }

  class PacketReader {
    var messages: seq<Message>
    /** The index of the next message to be popped. */
    var next: nat
    var err: ErrorCode

    /** The reader holds what was read of a packet. */
    ghost predicate Holds(r: Reading)
      reads this, messages, set m | m in messages :: m.storage
    {
      err == r.err && Stands(messages, r.msgs) && next <= |messages|
    }

    constructor ()
      ensures Holds(Reading([], Ok)) && next == 0
    {
      messages, next, err := [], 0, Ok;
    }

    method Init(d: bytes)
      modifies this
      ensures Holds(ReadPacket(d)) && next == 0
      ensures forall m | m in messages :: fresh(m) && fresh(m.storage)
    {
      err, messages, next := Ok, [], 0;
      if Aligned(|d|) {
        assert d[0..|d|] == d;
        var ms := Parse(d, 0, |d|, TIME_IMMEDIATE);
        messages := ms;
      } else {
        err := Raise(err, InvalidPacketSize);
      }
    }

    /** Parses the bytes from `beg` to `end`: every read stays between them, and each element is a smaller range. */
    method Parse(d: bytes, beg: nat, end: nat, tt: bits64) returns (ms: seq<Message>)
      requires beg <= end <= |d| && Aligned(end - beg) && err == Ok
      modifies this`err
      ensures err == ReadRange(d[beg..end], tt).err
      ensures Stands(ms, ReadRange(d[beg..end], tt).msgs)
      ensures forall m | m in ms :: fresh(m) && fresh(m.storage)
      decreases end - beg, 1
    {
      ghost var range := d[beg..end];
      if beg == end { return []; }
      if d[beg] == HASH {
        if end - beg >= 20 && d[beg..beg + 8] == BUNDLE_TAG {
          var tt2 := Bytes2Pod(HOST, d[beg + 8..beg + 16]);
          BundleRange(d, beg, end, tt);
          ms := ParseElements(d, beg + 16, end, tt2);
        } else {
          NoBundleRange(d, beg, end, tt);
          err := Raise(err, InvalidBundle);
          ms := [];
        }
      } else {
        var m := new Message.FromBytes(d[beg..end], tt);
        MessageRange(d, beg, end, tt);
        ms := [m];
        if m.err != Ok { err := Raise(err, m.err); }
      }
    }

    /** The loop over the elements of a bundle. */
    method ParseElements(d: bytes, beg: nat, end: nat, tt: bits64) returns (ms: seq<Message>)
      requires beg < end <= |d| && Aligned(end - beg) && err == Ok
      modifies this`err
      ensures err == ReadElems(d[beg..end], tt).err
      ensures Stands(ms, ReadElems(d[beg..end], tt).msgs)
      ensures forall m | m in ms :: fresh(m) && fresh(m.storage)
      decreases end - beg, 0
    {
      hide *;
      ghost var total := ReadElems(d[beg..end], tt);
      ghost var msgs: seq<MessageState> := [];
      var pos := beg;
      ms := [];
      StandsEmpty();
      JoinNothing(total);
      while true
        invariant beg <= pos < end && Aligned(end - pos) && err == Ok
        invariant Stands(ms, msgs) && total == Join(msgs, ReadElems(d[pos..end], tt))
        invariant forall m | m in ms :: fresh(m) && fresh(m.storage)
        decreases end - pos
      {
        RoomForSize(end - pos);
        var sz := Bytes2Pod(HOST, d[pos..pos + 4]);
        var start := pos + 4;
        ElementSize(d, pos, end, sz);
        if !Aligned(sz) || start + sz > end {
          BadElement(d, pos, end, tt, msgs);
          RaiseIs(err, InvalidBundle);
          err := Raise(err, InvalidBundle);
          return;
        }
        ElementRead(d, pos, end, tt, sz, msgs);
        var more := Parse(d, start, start + sz, tt);
        StandsJoin(ms, msgs, more, ReadRange(d[start..start + sz], tt).msgs);
        ms, msgs := ms + more, msgs + ReadRange(d[start..start + sz], tt).msgs;
        pos := start + sz;
        if err != Ok || pos == end { return; }
      }
    }

    /** The next message; nothing when all are read, or in case of an error. */
    method PopMessage() returns (m: Message?)
      modifies this`next
      ensures old(err) == Ok && old(next) < |messages| ==> m == messages[old(next)] && next == old(next) + 1
      ensures old(err) != Ok || old(next) >= |messages| ==> m == null && next == old(next)
    {
      if err == Ok && |messages| > 0 && next < |messages| {
        m := messages[next];
        next := next + 1;
      } else {
        m := null;
      }
    }
  }
}
