/**
 Whole runs of the daemon, from OSC packets to the bytes that the lamp receives.
 */
module DaemonRuns {
  import opened Bytes
  import opened MessageFormat
  import opened Messages
  import opened PacketFormat
  import opened LampLines
  import opened Moodpd
  import opened Pod
  import opened WriterFormat
  import opened RoundTrip
  import Serial

  /** What wakes the event loop. */
  datatype Event = OscPacket(d: bytes) | SerialReady

  function RunDaemon(l: Serial.Line, events: seq<Event>, scan: Scanner, oracle: Serial.Oracle): Serial.Line
    decreases |events|
  {
    if events == [] then l
    else
      var next := match events[0]
        case OscPacket(d) => SentAll(l, Received(d), scan, oracle)
        case SerialReady => Serial.Flushed(l, oracle).0;
      RunDaemon(next, events[1..], scan, oracle)
  }

  /** The serial line after the daemon has started. */
  function Started(oracle: Serial.Oracle): Serial.Line {
    Serial.Written(Serial.Line([], [], 0), RESET, oracle)
  }

  function ListOf<T>(o: Option<T>): seq<T> {
    if o.None? then [] else [o.value]
  }

  /** The commands that some messages ask for, in order. */
  function Asked(msgs: seq<MessageState>, scan: Scanner): seq<Command>
    decreases |msgs|
  {
    if msgs == [] then []
    else Asked(msgs[..|msgs| - 1], scan) + ListOf(MessageCommand(msgs[|msgs| - 1], scan))
  }

  function EventCommands(e: Event, scan: Scanner): seq<Command> {
    match e
    case OscPacket(d) => Asked(Received(d), scan)
    case SerialReady => []
  }

  /** The commands asked for in a run. */
  function Commands(events: seq<Event>, scan: Scanner): seq<Command>
    decreases |events|
  {
    if events == [] then []
    else
      EventCommands(events[0], scan) + Commands(events[1..], scan)
  }

  /** Their text. */
  function Stream(events: seq<Event>, scan: Scanner): bytes {
    Texts(Commands(events, scan))
  }

  /** All that the line has been given: what the lamp has received and what is still buffered. */
  function Given(l: Serial.Line): bytes {
    l.received + Serial.Pending(l.buffer)
  }

  lemma NoTexts()
    ensures Texts([]) == []
  {
  }

  lemma OneText(c: Command)
    ensures Texts([c]) == Text(c)
  {
    hide Text;
    assert [c][1..] == [];
  }

  lemma SentConserves(l: Serial.Line, command: Option<Command>, oracle: Serial.Oracle)
    ensures Given(Sent(l, command, oracle)) == Given(l) + Texts(ListOf(command))
  {
    hide Text;
    if command.None? {
      NoTexts();
      assert Given(l) + [] == Given(l);
    } else {
      OneText(command.value);
      Serial.WriteConserves(l, Text(command.value), oracle);
    }
  }

  lemma AskedSnoc(msgs: seq<MessageState>, scan: Scanner)
    requires msgs != []
    ensures var n := |msgs| - 1;
            Asked(msgs, scan) == Asked(msgs[..n], scan) + ListOf(MessageCommand(msgs[n], scan))
  {
    hide MessageCommand, ListOf;
  }

  lemma SentAllSnoc(l: Serial.Line, msgs: seq<MessageState>, scan: Scanner, oracle: Serial.Oracle)
    ensures SentAll(l, [], scan, oracle) == l && Asked([], scan) == []
    ensures msgs != [] ==>
              var n := |msgs| - 1;
              SentAll(l, msgs, scan, oracle) ==
              Sent(SentAll(l, msgs[..n], scan, oracle), MessageCommand(msgs[n], scan), oracle)
  {
    hide Sent, MessageCommand;
  }

  lemma {:induction false} SentAllConserves(l: Serial.Line, msgs: seq<MessageState>, scan: Scanner,
                                            oracle: Serial.Oracle)
    ensures Given(SentAll(l, msgs, scan, oracle)) == Given(l) + Texts(Asked(msgs, scan))
    decreases |msgs|
  {
    hide *;
    SentAllSnoc(l, msgs, scan, oracle);
    if msgs == [] {
      NoTexts();
    } else {
      var n := |msgs| - 1;
      var command := MessageCommand(msgs[n], scan);
      SentAllConserves(l, msgs[..n], scan, oracle);
      SentConserves(SentAll(l, msgs[..n], scan, oracle), command, oracle);
      AskedSnoc(msgs, scan);
      TextsConcat(Asked(msgs[..n], scan), ListOf(command));
    }
  }

  lemma CommandsStep(events: seq<Event>, scan: Scanner)
    ensures Commands([], scan) == []
    ensures events != [] ==>
              Commands(events, scan) == EventCommands(events[0], scan) + Commands(events[1..], scan)
    ensures events != [] ==>
              match events[0]
              case OscPacket(d) => EventCommands(events[0], scan) == Asked(Received(d), scan)
              case SerialReady => EventCommands(events[0], scan) == []
  {
    hide Asked, Received;
  }

  lemma {:induction false} RunConserves(l: Serial.Line, events: seq<Event>, scan: Scanner, oracle: Serial.Oracle)
    ensures Given(RunDaemon(l, events, scan, oracle)) == Given(l) + Texts(Commands(events, scan))
    decreases |events|
  {
    hide *;
    CommandsStep(events, scan);
    NoTexts();
    if events == [] {
      NoEvents(l, scan, oracle);
    } else {
      RunStep(l, events, scan, oracle);
      match events[0]
      case OscPacket(d) =>
        SentAllConserves(l, Received(d), scan, oracle);
        RunConserves(SentAll(l, Received(d), scan, oracle), events[1..], scan, oracle);
        TextsConcat(Asked(Received(d), scan), Commands(events[1..], scan));
      case SerialReady =>
        FlushKeepsGiven(l, oracle);
        RunConserves(Serial.Flushed(l, oracle).0, events[1..], scan, oracle);
        assert [] + Commands(events[1..], scan) == Commands(events[1..], scan);
    }
  }

  lemma FlushKeepsGiven(l: Serial.Line, oracle: Serial.Oracle)
    ensures Given(Serial.Flushed(l, oracle).0) == Given(l)
  {
    Serial.FlushConserves(l, oracle);
  }

  lemma StartedGiven(oracle: Serial.Oracle)
    ensures Given(Started(oracle)) == RESET
  {
    Serial.WriteConserves(Serial.Line([], [], 0), RESET, oracle);
  }

  /**
   At every moment of every run, whatever the packets and however the device takes its bytes, the lamp has
   received a prefix of the reset command followed by the commands of all messages in order, and the rest
   is still buffered.
   */
  lemma LampStream(events: seq<Event>, scan: Scanner, oracle: Serial.Oracle)
    ensures var l := RunDaemon(Started(oracle), events, scan, oracle);
            && l.received <= RESET + Stream(events, scan)
            && l.received + Serial.Pending(l.buffer) == RESET + Stream(events, scan)
  {
    RunConserves(Started(oracle), events, scan, oracle);
    StartedGiven(oracle);
  }

  // ----- everything arrives

  /** The serial line becomes ready so many times. */
  function Ready(times: nat): seq<Event> {
    if times == 0 then [] else [SerialReady] + Ready(times - 1)
  }

  lemma {:induction false} ReadyFlushes(l: Serial.Line, times: nat, scan: Scanner, oracle: Serial.Oracle)
    ensures RunDaemon(l, Ready(times), scan, oracle) == Serial.FlushTimes(l, times, oracle)
    decreases times
  {
    hide Serial.Flushed, SentAll;
    if times > 0 {
      ReadyFlushes(Serial.Flushed(l, oracle).0, times - 1, scan, oracle);
      assert Ready(times)[1..] == Ready(times - 1);
    }
  }

  lemma {:induction false} RunConcat(l: Serial.Line, events: seq<Event>, more: seq<Event>, scan: Scanner,
                                     oracle: Serial.Oracle)
    ensures RunDaemon(l, events + more, scan, oracle) ==
            RunDaemon(RunDaemon(l, events, scan, oracle), more, scan, oracle)
    decreases |events|
  {
    hide *;
    if events == [] {
      assert events + more == more;
      NoEvents(l, scan, oracle);
    } else {
      RunStep(l, events, scan, oracle);
      RunStep(l, events + more, scan, oracle);
      assert (events + more)[1..] == events[1..] + more;
      var next := match events[0]
        case OscPacket(d) => SentAll(l, Received(d), scan, oracle)
        case SerialReady => Serial.Flushed(l, oracle).0;
      RunConcat(next, events[1..], more, scan, oracle);
    }
  }

  /**
   Whatever the device did before: if from some moment on it accepts at each flush, the lamp has received
   every command once the line has been ready as often as there are bytes still queued at that moment.
   */
  lemma EverythingArrives(events: seq<Event>, times: nat, scan: Scanner, oracle: Serial.Oracle)
    requires var l := RunDaemon(Started(oracle), events, scan, oracle);
             && Serial.AcceptsEach(l, times, oracle)
             && times >= |Serial.Pending(l.buffer)| && (times >= 1 || l.buffer == [])
    ensures var end := RunDaemon(Started(oracle), events + Ready(times), scan, oracle);
            end.buffer == [] && end.received == RESET + Stream(events, scan)
  {
    hide *;
    var l := RunDaemon(Started(oracle), events, scan, oracle);
    LampStream(events, scan, oracle);
    RunConcat(Started(oracle), events, Ready(times), scan, oracle);
    ReadyFlushes(l, times, scan, oracle);
    Serial.DrainBound(l, times, oracle);
    RunConserves(l, Ready(times), scan, oracle);
    var end := Serial.FlushTimes(l, times, oracle);
    GivenIs(l);
    GivenIs(end);
    ReadyIsSilent(times, scan);
    NothingPending();
    assert end.received + [] == end.received && Given(l) + [] == Given(l);
  }

  lemma GivenIs(l: Serial.Line)
    ensures Given(l) == l.received + Serial.Pending(l.buffer)
  {
  }

  lemma NothingPending()
    ensures Serial.Pending([]) == []
  {
  }

  lemma {:induction false} ReadyIsSilent(times: nat, scan: Scanner)
    ensures Commands(Ready(times), scan) == [] && Texts(Commands(Ready(times), scan)) == []
    decreases times
  {
    if times > 0 {
      ReadyIsSilent(times - 1, scan);
      assert Ready(times)[1..] == Ready(times - 1);
    }
  }

  // ----- the event loop

  lemma RunStep(l: Serial.Line, events: seq<Event>, scan: Scanner, oracle: Serial.Oracle)
    requires events != []
    ensures RunDaemon(l, events, scan, oracle) ==
            RunDaemon(match events[0]
                      case OscPacket(d) => SentAll(l, Received(d), scan, oracle)
                      case SerialReady => Serial.Flushed(l, oracle).0, events[1..], scan, oracle)
  {
    hide SentAll, Received, Serial.Flushed;
  }

  lemma StartedIs(oracle: Serial.Oracle)
    ensures Started(oracle) == Serial.Written(Serial.Line([], [], 0), RESET, oracle)
  {
  }

  lemma NoEvents(l: Serial.Line, scan: Scanner, oracle: Serial.Oracle)
    ensures RunDaemon(l, [], scan, oracle) == l
  {
  }

  /** The event loop, up to any moment: the daemon is started on a fresh device and handles some events. */
  method Run(device: Serial.Device, scan: Scanner, events: seq<Event>) returns (daemon: Daemon)
    requires device.received == [] && device.attempts == 0
    modifies device
    ensures daemon.serial.device == device
    ensures daemon.serial.State() == RunDaemon(Started(device.oracle), events, scan, device.oracle)
    ensures device.received <= RESET + Stream(events, scan)
  {
    hide RunDaemon, SentAll, Started, Stream, Serial.Written, Serial.Flushed;
    ghost var oracle := device.oracle;
    StartedIs(oracle);
    LampStream(events, scan, oracle);
    daemon := new Daemon(device, scan);
    var i := 0;
    assert events[0..] == events;
    while i < |events|
      invariant i <= |events| && daemon.scan == scan && daemon.serial.device == device
      invariant RunDaemon(Started(oracle), events, scan, oracle) ==
                RunDaemon(daemon.serial.State(), events[i..], scan, oracle)
      modifies daemon.serial, device
    {
      RunStep(daemon.serial.State(), events[i..], scan, oracle);
      assert events[i..][1..] == events[i + 1..];
      match events[i] {
        case OscPacket(d) => daemon.HandlePacket(d);
        case SerialReady => daemon.HandleWritable();
      }
      i := i + 1;
    }
    assert events[i..] == [];
    NoEvents(daemon.serial.State(), scan, oracle);
  }

  // ----- what the messages ask for

  function Concat(lines: seq<bytes>): bytes {
    if lines == [] then [] else lines[0] + Concat(lines[1..])
  }

  lemma {:induction false} ConcatAdd(a: seq<bytes>, b: seq<bytes>)
    ensures Concat(a + b) == Concat(a) + Concat(b)
    decreases |a|
  {
    if a == [] {
      assert a + b == b;
    } else {
      assert (a + b)[1..] == a[1..] + b;
      ConcatAdd(a[1..], b);
    }
  }

  /** One line for each message, in order, each as its message asks for. */
  ghost predicate AskedLines(msgs: seq<MessageState>, scan: Scanner, lines: seq<bytes>) {
    && |lines| == |msgs|
    && forall i | 0 <= i < |msgs| :: AsksFor(msgs[i].address, ParsedArgs(msgs[i].data), scan, lines[i])
  }

  lemma AskedLinesAdd(a: seq<MessageState>, b: seq<MessageState>, scan: Scanner, x: seq<bytes>, y: seq<bytes>)
    requires AskedLines(a, scan, x) && AskedLines(b, scan, y)
    ensures AskedLines(a + b, scan, x + y) && Concat(x + y) == Concat(x) + Concat(y)
  {
    ConcatAdd(x, y);
    hide AsksFor, ParsedArgs, Concat;
  }

  lemma OneAsked(m: MessageState, scan: Scanner)
    requires NUL !in m.address
    ensures AskedLines([m], scan, [LineOf(MessageCommand(m, scan))])
    ensures Concat([LineOf(MessageCommand(m, scan))]) == Texts(ListOf(MessageCommand(m, scan)))
  {
    CommandAsks(m.address, ParsedArgs(m.data), scan);
    hide AsksFor, CommandOf, ParsedArgs, Text;
    var c := MessageCommand(m, scan);
    assert [LineOf(c)][1..] == [] && Concat([]) == [];
    NoTexts();
    if c.Some? {
      OneText(c.value);
    }
  }

  lemma {:induction false} MessagesAsk(msgs: seq<MessageState>, scan: Scanner) returns (lines: seq<bytes>)
    requires forall m | m in msgs :: NUL !in m.address
    ensures AskedLines(msgs, scan, lines) && Texts(Asked(msgs, scan)) == Concat(lines)
    decreases |msgs|
  {
    hide *;
    if msgs == [] {
      lines := [];
      NothingAsked(scan);
    } else {
      var n := |msgs| - 1;
      var before := MessagesAsk(msgs[..n], scan);
      var last := [LineOf(MessageCommand(msgs[n], scan))];
      lines := before + last;
      assert msgs == msgs[..n] + [msgs[n]];
      OneAsked(msgs[n], scan);
      AskedLinesAdd(msgs[..n], [msgs[n]], scan, before, last);
      AskedSnoc(msgs, scan);
      TextsConcat(Asked(msgs[..n], scan), ListOf(MessageCommand(msgs[n], scan)));
    }
  }

  lemma NothingAsked(scan: Scanner)
    ensures AskedLines([], scan, []) && Texts(Asked([], scan)) == [] == Concat([])
    ensures forall e: Event | e.SerialReady? :: EventMessages(e) == []
  {
    NoTexts();
  }

  function EventMessages(e: Event): seq<MessageState> {
    match e
    case OscPacket(d) => Received(d)
    case SerialReady => []
  }

  /** All messages that the daemon gets in a run. */
  function AllMessages(events: seq<Event>): seq<MessageState>
    decreases |events|
  {
    if events == [] then [] else EventMessages(events[0]) + AllMessages(events[1..])
  }

  lemma ReceivedAddresses(d: bytes)
    ensures forall m | m in Received(d) :: NUL !in m.address
  {
    if ReadPacket(d).err == Ok {
      GoodReading(d);
    }
    hide ReadPacket;
  }

  lemma AllMessagesStep(events: seq<Event>)
    ensures events == [] ==> AllMessages(events) == []
    ensures events != [] ==>
              AllMessages(events) == EventMessages(events[0]) + AllMessages(events[1..])
    ensures events != [] && events[0].OscPacket? ==> EventMessages(events[0]) == Received(events[0].d)
  {
    hide Received;
  }

  /** The stream of a run is what its messages ask for, line by line. */
  lemma {:induction false} StreamAsks(events: seq<Event>, scan: Scanner) returns (lines: seq<bytes>)
    ensures AskedLines(AllMessages(events), scan, lines) && Stream(events, scan) == Concat(lines)
    decreases |events|
  {
    hide *;
    StreamIs(events, scan);
    CommandsStep(events, scan);
    AllMessagesStep(events);
    NothingAsked(scan);
    NoTexts();
    if events == [] {
      lines := [];
    } else {
      var rest := StreamAsks(events[1..], scan);
      StreamIs(events[1..], scan);
      var first := [];
      match events[0] {
        case OscPacket(d) =>
          ReceivedAddresses(d);
          first := MessagesAsk(Received(d), scan);
        case SerialReady =>
      }
      lines := first + rest;
      AskedLinesAdd(EventMessages(events[0]), AllMessages(events[1..]), scan, first, rest);
      TextsConcat(EventCommands(events[0], scan), Commands(events[1..], scan));
    }
  }

  // ----- from bytes back to commands

  /**
   End to end, for every run: the lamp has at every moment received a prefix of the reset command and, for
   each message in order, the line that the message asks for, if any; the rest is still buffered. Once the
   reset command is complete, the complete lines received so far decode to exactly the first of the commands.
   */
  lemma EndToEnd(events: seq<Event>, scan: Scanner, oracle: Serial.Oracle)
    ensures var l := RunDaemon(Started(oracle), events, scan, oracle);
            exists lines :: AskedLines(AllMessages(events), scan, lines)
                            && l.received <= [113, 10] + Concat(lines)
                            && l.received + Serial.Pending(l.buffer) == [113, 10] + Concat(lines)
    ensures var l := RunDaemon(Started(oracle), events, scan, oracle);
            var commands := Commands(events, scan);
            |l.received| >= 2 ==>
              var n := Newlines(l.received[2..]);
              n <= |commands| && DecodeStream(l.received[2..]) == commands[..n]
  {
    hide *;
    LampStream(events, scan, oracle);
    StreamIs(events, scan);
    var lines := StreamAsks(events, scan);
    HexCharacters(0);
    var l, commands := RunDaemon(Started(oracle), events, scan, oracle), Commands(events, scan);
    ResetLength();
    if |l.received| >= 2 {
      var s := l.received[2..];
      assert (RESET + Texts(commands))[2..] == Texts(commands);
      assert s <= Texts(commands);
      PrefixDecodes(commands, s);
    }
  }

  lemma StreamIs(events: seq<Event>, scan: Scanner)
    ensures Stream(events, scan) == Texts(Commands(events, scan))
  {
  }

  lemma ResetLength()
    ensures |RESET| == 2
  {
  }

  /** As long as no orientation is asked for, whatever else is, the stream consists of ten-byte colour lines. */
  lemma ColourRuns(events: seq<Event>, scan: Scanner)
    requires forall c | c in Commands(events, scan) :: c.Paint?
    ensures |Stream(events, scan)| == 10 * |Commands(events, scan)|
    ensures forall k | 0 <= k < |Commands(events, scan)| ::
              && 10 * k + 10 <= |Stream(events, scan)|
              && Stream(events, scan)[10 * k..10 * k + 10] == ColourLine(Commands(events, scan)[k].c)
  {
    hide *;
    StreamIs(events, scan);
    var commands := Commands(events, scan);
    PaintsLength(commands);
    forall k | 0 <= k < |commands|
      ensures 10 * k + 10 <= |Texts(commands)| && Texts(commands)[10 * k..10 * k + 10] == ColourLine(commands[k].c)
    {
      PaintAt(commands, k);
    }
  }

  // ----- from the sender's calls to the lamp

  /** One line for each message sent, in order, each as its message asks for. */
  ghost predicate NoteLines(notes: seq<Note>, scan: Scanner, lines: seq<bytes>) {
    && |lines| == |notes|
    && forall i | 0 <= i < |notes| :: AsksFor(notes[i].address, notes[i].args, scan, lines[i])
  }

  lemma DeliveredLines(msgs: seq<MessageState>, notes: seq<Note>, scan: Scanner, lines: seq<bytes>)
    requires |msgs| == |notes| && forall i | 0 <= i < |notes| :: Delivers(msgs[i], notes[i])
    requires AskedLines(msgs, scan, lines)
    ensures NoteLines(notes, scan, lines)
  {
    forall i | 0 <= i < |notes| ensures AsksFor(notes[i].address, notes[i].args, scan, lines[i]) {
      DeliveredNote(msgs[i], notes[i]);
    }
    hide AsksFor, Delivers, ParsedArgs;
  }

  lemma DeliveredNote(m: MessageState, n: Note)
    requires Delivers(m, n)
    ensures m.address == n.address && ParsedArgs(m.data) == n.args
  {
    hide Holds, Tags, ParsedArgs;
  }

  /**
   The packet that a sender builds with balanced calls over any well-formed messages makes the daemon send
   exactly the lines that these messages ask for, in order.
   */
  lemma SenderToLamp(p: Packet, notes: seq<Note>, scan: Scanner)
    requires Writable(p) && |Flat(p)| < RANGE32
    requires |notes| == |Leaves(p, TIME_IMMEDIATE)|
    requires forall i | 0 <= i < |notes| :: Sends(Leaves(p, TIME_IMMEDIATE)[i], notes[i])
    ensures exists lines :: NoteLines(notes, scan, lines) && Texts(Asked(Received(Flat(p)), scan)) == Concat(lines)
  {
    hide *;
    PacketRoundTrip(p, notes);
    ReceivedIs(Flat(p));
    ReceivedAddresses(Flat(p));
    var lines := MessagesAsk(Received(Flat(p)), scan);
    DeliveredLines(Received(Flat(p)), notes, scan, lines);
  }

  lemma ReceivedIs(d: bytes)
    ensures Received(d) == if ReadPacket(d).err == Ok then ReadPacket(d).msgs else []
  {
  }
}
