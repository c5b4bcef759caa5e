/**
 Buffered writes to a non-blocking device: a queue of chunks that is drained by short writes.
 */
module Serial {
  import opened Bytes

  /** What the device does at each write attempt: how many bytes it would take, negative when it would block. */
  type Oracle = nat -> int

  /** The queue of chunks, what the device has received, and the number of write attempts so far. */
  datatype Line = Line(buffer: seq<bytes>, received: bytes, attempts: nat)

  /** As many bytes as the device would take, if there are so many. */
  function Taken(oracle: Oracle, attempt: nat, size: nat): (n: nat)
    ensures n <= size && n <= (if oracle(attempt) >= 0 then oracle(attempt) else 0)
    ensures n == size || n == oracle(attempt) || (n == 0 && oracle(attempt) < 0)
  {
    if oracle(attempt) < 0 then 0 else if oracle(attempt) < size then oracle(attempt) else size
  }

  /** Everything still buffered, in order. */
  function Pending(buffer: seq<bytes>): bytes {
    if buffer == [] then [] else buffer[0] + Pending(buffer[1..])
  }

  /** One attempt to write the first chunk. */
  function Attempt(l: Line, oracle: Oracle): Line
    requires l.buffer != []
  {
    var chunk := l.buffer[0];
    var n := Taken(oracle, l.attempts, |chunk|);
    Line(if n == |chunk| then l.buffer[1..] else [chunk[n..]] + l.buffer[1..], l.received + chunk[..n], l.attempts + 1)
  }

  /** Attempts go on until the queue is empty or the device takes less than a chunk. */
  function Flushed(l: Line, oracle: Oracle): (r: (Line, bool))
    decreases |l.buffer|
  {
    if l.buffer == [] then (l, true)
    else
      var next := Attempt(l, oracle);
      if |next.buffer| == |l.buffer| then (next, false) else Flushed(next, oracle)
  }

  function Written(l: Line, data: bytes, oracle: Oracle): Line {
    Flushed(l.(buffer := l.buffer + [data]), oracle).0
  }

  datatype Op = Write(data: bytes) | Flush

  function RunOps(l: Line, ops: seq<Op>, oracle: Oracle): Line
    decreases |ops|
  {
    if ops == [] then l
    else
      var next := match ops[0] case Write(data) => Written(l, data, oracle) case Flush => Flushed(l, oracle).0;
      RunOps(next, ops[1..], oracle)
  }

  /** All that is written in a run, in order. */
  function Input(ops: seq<Op>): bytes
    decreases |ops|
  {
    if ops == [] then []
    else (match ops[0] case Write(data) => data case Flush => []) + Input(ops[1..])
  }

  // ----- conservation

  lemma {:induction false} PendingSnoc(buffer: seq<bytes>, data: bytes)
    ensures Pending(buffer + [data]) == Pending(buffer) + data
    decreases |buffer|
  {
    if buffer == [] {
      assert [] + [data] == [data] && [data][1..] == [];
    } else {
      assert (buffer + [data])[1..] == buffer[1..] + [data];
      PendingSnoc(buffer[1..], data);
    }
  }

  lemma SplitChunk(received: bytes, chunk: bytes, n: nat, rest: bytes)
    requires n <= |chunk|
    ensures received + (chunk + rest) == (received + chunk[..n]) + (chunk[n..] + rest)
    ensures n == |chunk| ==> received + (chunk + rest) == (received + chunk[..n]) + rest
  {
    assert chunk == chunk[..n] + chunk[n..];
  }

  lemma AttemptConserves(l: Line, oracle: Oracle)
    requires l.buffer != []
    ensures var next := Attempt(l, oracle); next.received + Pending(next.buffer) == l.received + Pending(l.buffer)
  {
    var chunk, rest := l.buffer[0], l.buffer[1..];
    var n := Taken(oracle, l.attempts, |chunk|);
    hide Taken;
    SplitChunk(l.received, chunk, n, Pending(rest));
    if n < |chunk| {
      assert ([chunk[n..]] + rest)[1..] == rest;
    }
  }

  lemma {:induction false} FlushConserves(l: Line, oracle: Oracle)
    ensures var (l', done) := Flushed(l, oracle);
            && l'.received + Pending(l'.buffer) == l.received + Pending(l.buffer)
            && (done <==> l'.buffer == [])
    decreases |l.buffer|
  {
    if l.buffer != [] {
      AttemptConserves(l, oracle);
      var next := Attempt(l, oracle);
      if |next.buffer| != |l.buffer| {
        FlushConserves(next, oracle);
      }
    }
  }

  lemma WriteConserves(l: Line, data: bytes, oracle: Oracle)
    ensures var l' := Written(l, data, oracle);
            l'.received + Pending(l'.buffer) == l.received + Pending(l.buffer) + data
  {
    FlushConserves(l.(buffer := l.buffer + [data]), oracle);
    PendingSnoc(l.buffer, data);
    assert l.received + (Pending(l.buffer) + data) == l.received + Pending(l.buffer) + data;
  }

  /**
   For every interleaving of writes and flushes and every behaviour of the device, what it has received
   followed by what is still buffered is all that was written, in order.
   */
  lemma {:induction false} RunConserves(l: Line, ops: seq<Op>, oracle: Oracle)
    ensures var l' := RunOps(l, ops, oracle);
            l'.received + Pending(l'.buffer) == l.received + Pending(l.buffer) + Input(ops)
    decreases |ops|
  {
    hide *;
    RunOpsStep(l, ops, oracle);
    if ops == [] {
      assert l.received + Pending(l.buffer) + [] == l.received + Pending(l.buffer);
    } else {
      match ops[0]
      case Write(data) =>
        WriteConserves(l, data, oracle);
        RunConserves(Written(l, data, oracle), ops[1..], oracle);
        assert l.received + Pending(l.buffer) + data + Input(ops[1..]) ==
               l.received + Pending(l.buffer) + (data + Input(ops[1..]));
      case Flush =>
        FlushConserves(l, oracle);
        RunConserves(Flushed(l, oracle).0, ops[1..], oracle);
    }
  }

  lemma RunOpsStep(l: Line, ops: seq<Op>, oracle: Oracle)
    ensures ops == [] ==> RunOps(l, ops, oracle) == l && Input(ops) == []
    ensures ops != [] && ops[0].Write? ==>
              && RunOps(l, ops, oracle) == RunOps(Written(l, ops[0].data, oracle), ops[1..], oracle)
              && Input(ops) == ops[0].data + Input(ops[1..])
    ensures ops != [] && ops[0].Flush? ==>
              && RunOps(l, ops, oracle) == RunOps(Flushed(l, oracle).0, ops[1..], oracle)
              && Input(ops) == Input(ops[1..])
  {
    hide Flushed, Written;
    if ops != [] && ops[0].Flush? {
      assert [] + Input(ops[1..]) == Input(ops[1..]);
    }
  }

  // ----- what a flush does, exactly

  /** The first chunks of the queue are taken whole, one attempt each. */
  predicate TakenWhole(l: Line, oracle: Oracle, k: nat)
    requires k <= |l.buffer|
  {
    forall i | 0 <= i < k :: oracle(l.attempts + i) >= |l.buffer[i]|
  }

  lemma AttemptWhole(l: Line, oracle: Oracle)
    requires l.buffer != [] && oracle(l.attempts) >= |l.buffer[0]|
    ensures Attempt(l, oracle) == Line(l.buffer[1..], l.received + l.buffer[0], l.attempts + 1)
  {
    assert l.buffer[0][..|l.buffer[0]|] == l.buffer[0];
  }

  /** An attempt that the device does not meet in full takes a part of the first chunk, or nothing of an empty one. */
  lemma AttemptPart(l: Line, oracle: Oracle)
    requires l.buffer != [] && oracle(l.attempts) < |l.buffer[0]|
    ensures var chunk := l.buffer[0];
            var n := if oracle(l.attempts) < 0 then 0 else oracle(l.attempts);
            Attempt(l, oracle) ==
            if chunk == [] then Line(l.buffer[1..], l.received, l.attempts + 1)
            else Line([chunk[n..]] + l.buffer[1..], l.received + chunk[..n], l.attempts + 1)
  {
    assert l.received + [] == l.received;
  }

  /** Whether an attempt takes all of a chunk. A device that would block takes all of an empty one. */
  predicate Whole(oracle: Oracle, attempt: nat, chunk: bytes) {
    chunk == [] || oracle(attempt) >= |chunk|
  }

  /** The number of chunks at the front of the queue that the next attempts take whole. */
  function WholeChunks(buffer: seq<bytes>, attempt: nat, oracle: Oracle): (k: nat)
    ensures k <= |buffer|
    ensures forall i | 0 <= i < k :: Whole(oracle, attempt + i, buffer[i])
    ensures k < |buffer| ==> !Whole(oracle, attempt + k, buffer[k])
  {
    if buffer == [] || !Whole(oracle, attempt, buffer[0]) then 0 else 1 + WholeChunks(buffer[1..], attempt + 1, oracle)
  }

  lemma FlushStep(l: Line, oracle: Oracle)
    requires l.buffer != []
    ensures Whole(oracle, l.attempts, l.buffer[0]) ==>
              Flushed(l, oracle) == Flushed(Line(l.buffer[1..], l.received + l.buffer[0], l.attempts + 1), oracle)
    ensures !Whole(oracle, l.attempts, l.buffer[0]) ==> Flushed(l, oracle) == (Attempt(l, oracle), false)
  {
    if oracle(l.attempts) >= |l.buffer[0]| {
      AttemptWhole(l, oracle);
    } else {
      AttemptPart(l, oracle);
      assert l.received + [] == l.received;
    }
    hide Taken;
  }

  /**
   The outcome of a flush that delivers `k` chunks whole, one attempt each. If these are not all, one more
   attempt delivers what the device takes of the next chunk, and the rest of that chunk and the chunks behind
   it stay queued. It is done if they are all.
   */
  function Outcome(l: Line, oracle: Oracle, k: nat): (Line, bool)
    requires k <= |l.buffer|
  {
    if k == |l.buffer| then (Line([], l.received + Pending(l.buffer), l.attempts + k), true)
    else
      var chunk, n := l.buffer[k], Taken(oracle, l.attempts + k, |l.buffer[k]|);
      var received := l.received + Pending(l.buffer[..k]) + chunk[..n];
      (Line([chunk[n..]] + l.buffer[k + 1..], received, l.attempts + k + 1), false)
  }

  lemma OutcomeShift(l: Line, oracle: Oracle, k: nat)
    requires 0 < k <= |l.buffer|
    ensures Outcome(l, oracle, k) ==
            Outcome(Line(l.buffer[1..], l.received + l.buffer[0], l.attempts + 1), oracle, k - 1)
  {
    PendingCons(l.buffer, k);
    var a, b, c := l.received, l.buffer[0], Pending(l.buffer[1..]);
    var d := Pending(l.buffer[1..][..k - 1]);
    assert a + (b + c) == a + b + c && a + (b + d) == a + b + d;
    hide Pending, Taken;
  }

  lemma OutcomeStart(l: Line, oracle: Oracle)
    ensures l.buffer == [] ==> Outcome(l, oracle, 0) == (l, true)
    ensures l.buffer != [] && !Whole(oracle, l.attempts, l.buffer[0]) ==>
              Outcome(l, oracle, 0) == (Attempt(l, oracle), false)
  {
    assert l.buffer[..0] == [] && l.received + [] == l.received;
  }

  lemma WholeChunksIs(l: Line, oracle: Oracle)
    ensures WholeChunks(l.buffer, l.attempts, oracle) ==
            if l.buffer == [] || !Whole(oracle, l.attempts, l.buffer[0]) then 0
            else 1 + WholeChunks(l.buffer[1..], l.attempts + 1, oracle)
  {
    hide Whole;
  }

  /** A flush stops only where the device refuses: it delivers all chunks that the device takes whole. */
  lemma {:induction false} FlushExact(l: Line, oracle: Oracle)
    ensures Flushed(l, oracle) == Outcome(l, oracle, WholeChunks(l.buffer, l.attempts, oracle))
    decreases |l.buffer|
  {
    hide *;
    WholeChunksIs(l, oracle);
    OutcomeStart(l, oracle);
    if l.buffer == [] {
      FlushTries(l, oracle);
    } else {
      FlushStep(l, oracle);
      if Whole(oracle, l.attempts, l.buffer[0]) {
        var next := Line(l.buffer[1..], l.received + l.buffer[0], l.attempts + 1);
        FlushExact(next, oracle);
        OutcomeShift(l, oracle, WholeChunks(l.buffer, l.attempts, oracle));
      }
    }
  }

  lemma PendingCons(buffer: seq<bytes>, k: nat)
    requires 0 < k <= |buffer|
    ensures Pending(buffer) == buffer[0] + Pending(buffer[1..])
    ensures Pending(buffer[..k]) == buffer[0] + Pending(buffer[1..][..k - 1])
    ensures k < |buffer| ==> buffer[1..][k - 1] == buffer[k] && buffer[1..][k..] == buffer[k + 1..]
  {
    assert buffer[..k][1..] == buffer[1..][..k - 1];
  }

  /** A write queues its data behind all the rest and flushes: a device that takes all has it at once. */
  lemma WriteFlushes(l: Line, data: bytes, oracle: Oracle)
    ensures Written(l, data, oracle) == Flushed(Line(l.buffer + [data], l.received, l.attempts), oracle).0
    ensures TakenWhole(Line(l.buffer + [data], l.received, l.attempts), oracle, |l.buffer| + 1) ==>
              Written(l, data, oracle) == Line([], l.received + Pending(l.buffer) + data, l.attempts + |l.buffer| + 1)
  {
    var queued := Line(l.buffer + [data], l.received, l.attempts);
    if TakenWhole(queued, oracle, |l.buffer| + 1) {
      AllTaken(queued, oracle);
      PendingSnoc(l.buffer, data);
      assert l.received + (Pending(l.buffer) + data) == l.received + Pending(l.buffer) + data;
    }
    hide Flushed, Pending, TakenWhole;
  }

  /** Whenever the device takes every chunk, a flush empties the queue and has delivered all of it. */
  lemma AllTaken(l: Line, oracle: Oracle)
    requires TakenWhole(l, oracle, |l.buffer|)
    ensures Flushed(l, oracle) == (Line([], l.received + Pending(l.buffer), l.attempts + |l.buffer|), true)
  {
    hide *;
    FlushExact(l, oracle);
    TakesEveryChunk(l, oracle);
    OutcomeOfAll(l, oracle);
  }

  lemma OutcomeOfAll(l: Line, oracle: Oracle)
    ensures Outcome(l, oracle, |l.buffer|) == (Line([], l.received + Pending(l.buffer), l.attempts + |l.buffer|), true)
  {
    hide Pending;
  }

  lemma {:induction false} TakesEveryChunk(l: Line, oracle: Oracle)
    requires TakenWhole(l, oracle, |l.buffer|)
    ensures WholeChunks(l.buffer, l.attempts, oracle) == |l.buffer|
    decreases |l.buffer|
  {
    if l.buffer != [] {
      var next := Line(l.buffer[1..], l.received, l.attempts + 1);
      forall i | 0 <= i < |next.buffer| ensures oracle(next.attempts + i) >= |next.buffer[i]| {
        assert oracle(l.attempts + (i + 1)) >= |l.buffer[i + 1]|;
      }
      TakesEveryChunk(next, oracle);
      assert oracle(l.attempts + 0) >= |l.buffer[0]|;
    }
  }

  // ----- how long draining takes

  function FlushTimes(l: Line, times: nat, oracle: Oracle): Line
    decreases times
  {
    if times == 0 then l else FlushTimes(Flushed(l, oracle).0, times - 1, oracle)
  }

  /** When a flush comes to the first byte that is queued, the device takes it. Empty chunks may be refused. */
  predicate Accepts(l: Line, oracle: Oracle)
    decreases |l.buffer|
  {
    l.buffer == [] || (if l.buffer[0] == [] then Accepts(Attempt(l, oracle), oracle) else oracle(l.attempts) >= 1)
  }

  /** The device does so at each of so many flushes. */
  predicate AcceptsEach(l: Line, times: nat, oracle: Oracle)
    decreases times
  {
    times == 0 || (Accepts(l, oracle) && AcceptsEach(Flushed(l, oracle).0, times - 1, oracle))
  }

  /** A flush of a queue makes at least one attempt to write; of an empty queue, none. */
  lemma {:induction false} FlushTries(l: Line, oracle: Oracle)
    ensures l.buffer == [] ==> Flushed(l, oracle) == (l, true)
    ensures l.buffer != [] ==> Flushed(l, oracle).0.attempts > l.attempts
    decreases |l.buffer|
  {
    if l.buffer != [] {
      var next := Attempt(l, oracle);
      if |next.buffer| != |l.buffer| {
        FlushTries(next, oracle);
      }
    }
  }

  /** A device that takes something from now on accepts at each flush, whatever it did before. */
  lemma {:induction false} EagerAccepts(l: Line, times: nat, oracle: Oracle)
    requires forall k | k >= l.attempts :: oracle(k) >= 1
    ensures AcceptsEach(l, times, oracle)
    decreases times
  {
    hide Flushed;
    if times > 0 {
      EagerOnce(l, oracle);
      FlushTries(l, oracle);
      EagerAccepts(Flushed(l, oracle).0, times - 1, oracle);
    }
  }

  lemma {:induction false} EagerOnce(l: Line, oracle: Oracle)
    requires forall k | k >= l.attempts :: oracle(k) >= 1
    ensures Accepts(l, oracle)
    decreases |l.buffer|
  {
    if l.buffer != [] && l.buffer[0] == [] {
      EagerOnce(Attempt(l, oracle), oracle);
    }
  }

  /** What an unfinished flush leaves is not just empty chunks. */
  lemma {:induction false} FlushLeaves(l: Line, oracle: Oracle)
    ensures var (l', done) := Flushed(l, oracle);
            |l'.received| >= |l.received| && (!done ==> |Pending(l'.buffer)| >= 1)
    decreases |l.buffer|
  {
    if l.buffer != [] {
      var next := Attempt(l, oracle);
      if |next.buffer| != |l.buffer| {
        FlushLeaves(next, oracle);
      }
    }
  }

  /** A flush at which the device accepts and that does not empty the queue takes at least one byte and leaves some. */
  lemma {:induction false} FlushAdvances(l: Line, oracle: Oracle)
    requires Accepts(l, oracle)
    ensures var (l', done) := Flushed(l, oracle);
            !done ==> 1 <= |Pending(l'.buffer)| < |Pending(l.buffer)|
    decreases |l.buffer|
  {
    FlushLeaves(l, oracle);
    if l.buffer != [] {
      var next := Attempt(l, oracle);
      AttemptConserves(l, oracle);
      assert |next.received| + |Pending(next.buffer)| == |l.received| + |Pending(l.buffer)|;
      if l.buffer[0] == [] {
        FlushAdvances(next, oracle);
      } else if |next.buffer| != |l.buffer| {
        FlushLeaves(next, oracle);
        FlushConserves(next, oracle);
        var l' := Flushed(next, oracle).0;
        assert |l'.received| + |Pending(l'.buffer)| == |next.received| + |Pending(next.buffer)|;
      }
    }
  }

  /** With N bytes queued, at most max(1, N) flushes at which the device accepts empty the queue. */
  lemma {:induction false} DrainBound(l: Line, times: nat, oracle: Oracle)
    requires AcceptsEach(l, times, oracle)
    requires times >= |Pending(l.buffer)| && (times >= 1 || l.buffer == [])
    ensures FlushTimes(l, times, oracle).buffer == []
    decreases times
  {
    hide Flushed, Pending;
    if times > 0 {
      FlushAdvances(l, oracle);
      FlushConserves(l, oracle);
      var next := Flushed(l, oracle).0;
      if next.buffer == [] {
        EmptyStays(next, times - 1, oracle);
      } else {
        DrainBound(next, times - 1, oracle);
      }
    }
  }

  lemma {:induction false} EmptyStays(l: Line, times: nat, oracle: Oracle)
    requires l.buffer == []
    ensures FlushTimes(l, times, oracle) == l
    decreases times
  {
    if times > 0 {
      EmptyStays(l, times - 1, oracle);
    }
  }

  /** The bound is reached: a device that takes one byte at a time needs one flush for every byte of a chunk. */
  lemma {:induction false} DrainBoundIsReached(chunk: bytes, received: bytes, attempts: nat, times: nat)
    requires times < |chunk|
    ensures var l' := FlushTimes(Line([chunk], received, attempts), times, k => 1);
            l'.buffer == [chunk[times..]]
    decreases times
  {
    if times > 0 {
      var l := Line([chunk], received, attempts);
      assert Flushed(l, k => 1).0 == Line([chunk[1..]], received + chunk[..1], attempts + 1);
      DrainBoundIsReached(chunk[1..], received + chunk[..1], attempts + 1, times - 1);
    }
  }

  // ----- the device and the writer

  /** The file behind the descriptor. */
  class Device {
    const oracle: Oracle
    var received: bytes
    var attempts: nat

    constructor (oracle: Oracle)
      ensures this.oracle == oracle && received == [] && attempts == 0
    {
      this.oracle := oracle;
      received, attempts := [], 0;
    }

    /** The number of bytes taken, or -1 when the call would block. */
    method Write(data: bytes) returns (n: int)
      modifies this
      ensures n == if oracle(old(attempts)) < 0 then -1 else Taken(oracle, old(attempts), |data|)
      ensures received == old(received) + data[..Taken(oracle, old(attempts), |data|)]
      ensures attempts == old(attempts) + 1
    {
      n := oracle(attempts);
      if n < 0 {
        n := -1;
      } else {
        if n > |data| { n := |data|; }
        received := received + data[..n];
      }
      attempts := attempts + 1;
    }
  }

  class NonblockWriter {
    var buffer: seq<bytes>
    const device: Device

    function State(): Line
      reads this, device
    {
      Line(buffer, device.received, device.attempts)
    }

    constructor (device: Device)
      ensures this.device == device && buffer == []
    {
      this.device := device;
      buffer := [];
    }

    /** Writes a piece of data without buffering; returns the number of bytes written. */
    method WriteToFile(data: bytes) returns (n: nat)
      modifies device
      ensures n == Taken(device.oracle, old(device.attempts), |data|)
      ensures device.received == old(device.received) + data[..n]
      ensures device.attempts == old(device.attempts) + 1
    {
      var sz := device.Write(data);
      if sz < 0 { return 0; }
      return sz;
    }

    /** Tries to flush the buffer; true when it is empty. */
    method Flush() returns (done: bool)
      modifies this, device
      ensures (State(), done) == old(Flushed(State(), device.oracle))
    {
      while buffer != []
        invariant old(Flushed(State(), device.oracle)) == Flushed(State(), device.oracle)
        decreases |buffer|
      {
        ghost var before := State();
        var sz := WriteToFile(buffer[0]);
        assert sz == |buffer[0]| ==> buffer[0][..sz] == buffer[0];
        if sz == |buffer[0]| {
          buffer := buffer[1..];
          assert State() == Attempt(before, device.oracle);
        } else {
          buffer := [buffer[0][sz..]] + buffer[1..];
          assert State() == Attempt(before, device.oracle);
          return false;
        }
      }
      return true;
    }

    /** True exactly when a flush would not even try to write; then everything has been delivered. */
    method WriteBufferEmpty() returns (b: bool)
      ensures b <==> Flushed(State(), device.oracle).0.attempts == device.attempts
      ensures b ==> Pending(buffer) == [] && Flushed(State(), device.oracle) == (State(), true)
    {
      FlushTries(State(), device.oracle);
      return buffer == [];
    }

    /** Buffers the data and tries to flush. */
    method Write(data: bytes)
      modifies this, device
      ensures State() == old(Written(State(), data, device.oracle))
    {
      buffer := buffer + [data];
      var done := Flush();
    }

    /** The number of bytes buffered. */
    method GetWritebufferSize() returns (size: nat)
      ensures size == |Pending(buffer)|
    {
      size := 0;
      for i := 0 to |buffer|
        invariant size + |Pending(buffer[i..])| == |Pending(buffer)|
      {
        assert buffer[i..][1..] == buffer[i + 1..];
        size := size + |buffer[i]|;
      }
    }
  }
}
