/**
 What a sequence of writer calls builds: a list of finished packets, a stack of open bundles, and an
 error code; and the bytes that stand for it, in which the size of every open nested bundle is a hole.
 */
module WriterFormat {
  import opened Bytes
  import opened MessageFormat
  import opened PacketFormat

  /** A call of the writer. A message is represented by the bytes it is packed to, or by its error. */
  datatype Call = Start(tt: bits64) | End | Add(raw: bytes) | AddFailed(e: ErrorCode)

  /** An open bundle with the elements it has so far. */
  datatype Frame = Frame(tt: bits64, elems: seq<Packet>)

  datatype Written = Written(done: seq<Packet>, open: seq<Frame>, err: ErrorCode)

  const INITIAL: Written := Written([], [], Ok)

  /** Puts a finished packet into the innermost open bundle, or next to the finished packets. */
  function PutIn(w: Written, p: Packet): Written {
    if w.open == [] then w.(done := w.done + [p])
    else
      var n := |w.open| - 1;
      w.(open := w.open[..n] + [Frame(w.open[n].tt, w.open[n].elems + [p])])
  }

  /** A bundle that is closed without an element gets one of size zero. */
  function Closed(f: Frame): Packet {
    Bundle(f.tt, if f.elems == [] then [Nothing] else f.elems)
  }

  /** Something was written, and no bundle is open to put anything else in. */
  predicate Full(w: Written) {
    w.open == [] && w.done != []
  }

  function Apply(w: Written, c: Call): Written {
    match c
    case Start(tt) => w.(open := w.open + [Frame(tt, [])])
    case End =>
      if w.open == [] then w.(err := Raise(w.err, InvalidBundle))
      else PutIn(w.(open := w.open[..|w.open| - 1]), Closed(w.open[|w.open| - 1]))
    case Add(raw) =>
      if Full(w) then w.(err := Raise(w.err, BundleRequiredForMultiMessages)) else PutIn(w, Leaf(raw))
    case AddFailed(e) =>
      w.(err := Raise(if Full(w) then Raise(w.err, BundleRequiredForMultiMessages) else w.err, e))
  }

  function ApplyAll(w: Written, cs: seq<Call>): Written
    decreases |cs|
  {
    if cs == [] then w else ApplyAll(Apply(w, cs[0]), cs[1..])
  }

  // ----- the bytes

  function FlatDone(ps: seq<Packet>): bytes {
    if ps == [] then [] else FlatDone(ps[..|ps| - 1]) + Flat(ps[|ps| - 1])
  }

  /** The room for a size in front of every bundle but the outermost. */
  function Hole(depth: nat): bytes {
    if depth == 0 then [] else Zeros(4)
  }

  function FlatOpen(open: seq<Frame>): bytes {
    if open == [] then []
    else
      var n := |open| - 1;
      FlatOpen(open[..n]) + Hole(n) + Header(open[n].tt) + FlatElems(open[n].elems)
  }

  function FlatWritten(w: Written): bytes {
    FlatDone(w.done) + FlatOpen(w.open)
  }

  /** Where the open bundles start. */
  function Starts(base: nat, open: seq<Frame>): (r: seq<nat>)
    ensures |r| == |open|
  {
    if open == [] then []
    else
      var n := |open| - 1;
      Starts(base, open[..n]) + [base + |FlatOpen(open[..n])| + |Hole(n)|]
  }

  // ----- the calls that build a packet

  /** The packets that can be built. */
  predicate Writable(p: Packet)
    decreases p
  {
    match p
    case Nothing => false
    case Leaf(raw) => raw != []
    case Bundle(_, elems) => elems == [Nothing] || (elems != [] && WritableElems(elems))
  }

  predicate WritableElems(es: seq<Packet>)
    decreases es
  {
    es == [] || (Writable(es[0]) && WritableElems(es[1..]))
  }

  function Calls(p: Packet): seq<Call>
    decreases p
  {
    match p
    case Nothing => []
    case Leaf(raw) => [Add(raw)]
    case Bundle(tt, elems) => [Start(tt)] + CallsElems(elems) + [End]
  }

  function CallsElems(es: seq<Packet>): seq<Call>
    decreases es
  {
    if es == [] then [] else Calls(es[0]) + CallsElems(es[1..])
  }

  /** The calls that lead to a state. */
  function CallsDone(ps: seq<Packet>): seq<Call> {
    if ps == [] then [] else CallsDone(ps[..|ps| - 1]) + Calls(ps[|ps| - 1])
  }

  function CallsOpen(open: seq<Frame>): seq<Call> {
    if open == [] then []
    else
      var n := |open| - 1;
      CallsOpen(open[..n]) + [Start(open[n].tt)] + CallsElems(open[n].elems)
  }

  function History(w: Written): seq<Call> {
    CallsDone(w.done) + CallsOpen(w.open)
  }

  /** All that was put anywhere can be built. */
  predicate Proper(w: Written) {
    && (forall p | p in w.done :: Writable(p))
    && (forall f | f in w.open :: WritableElems(f.elems))
  }

  /** A call whose message, if any, has bytes. */
  predicate Sound(c: Call) {
    && (c.Add? ==> c.raw != [] && Aligned(|c.raw|))
    && (c.AddFailed? ==> c.e != Ok)
  }
}
