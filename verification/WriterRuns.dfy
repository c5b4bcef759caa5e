/**
 Whole runs of the writer: which call sequences build which packet, when an error is raised, and the
 round trip from calls to the messages that the reader returns.
 */
module WriterRuns {
  import opened MessageFormat
  import opened PacketFormat
  import opened WriterFormat
  import opened WriterLaws

  // ----- the calls of a packet build that packet

  lemma {:induction false} ApplyConcat(w: Written, cs: seq<Call>, ds: seq<Call>)
    ensures ApplyAll(w, cs + ds) == ApplyAll(ApplyAll(w, cs), ds)
    decreases |cs|
  {
    hide Apply;
    if cs == [] {
      assert cs + ds == ds;
    } else {
      assert (cs + ds)[1..] == cs[1..] + ds;
      ApplyConcat(Apply(w, cs[0]), cs[1..], ds);
    }
  }

  lemma ApplyOne(w: Written, c: Call)
    ensures ApplyAll(w, [c]) == Apply(w, c)
  {
    hide Apply;
    assert [c][1..] == [];
  }

  /** The calls of a packet put that packet where the writer is. */
  lemma {:induction false} CallsBuild(w: Written, p: Packet)
    requires Writable(p) && !Full(w)
    ensures ApplyAll(w, Calls(p)) == PutIn(w, p)
    decreases p
  {
    match p
    case Nothing =>
    case Leaf(raw) =>
      ApplyOne(w, Add(raw));
    case Bundle(tt, elems) =>
      var inside := w.(open := w.open + [Frame(tt, [])]);
      var filled := w.(open := w.open + [Frame(tt, if elems == [Nothing] then [] else elems)]);
      if elems == [Nothing] {
        EmptyElement();
        assert ApplyAll(inside, []) == inside;
      } else {
        CallsElemsBuild(w, tt, [], elems);
        assert [] + elems == elems;
      }
      assert filled.open[..|w.open|] == w.open;
      BundleSteps(w, tt, CallsElems(elems));
  }

  /** Opening, whatever is inside, and closing. */
  lemma BundleSteps(w: Written, tt: bits64, inside: seq<Call>)
    ensures ApplyAll(w, [Start(tt)] + inside + [End]) ==
            Apply(ApplyAll(w.(open := w.open + [Frame(tt, [])]), inside), End)
  {
    hide *;
    StartIs(w, tt);
    ApplyConcat(w, [Start(tt)] + inside, [End]);
    ApplyConcat(w, [Start(tt)], inside);
    ApplyOne(w, Start(tt));
    ApplyOne(ApplyAll(w.(open := w.open + [Frame(tt, [])]), inside), End);
  }

  lemma {:induction false} CallsElemsBuild(w: Written, tt: bits64, before: seq<Packet>, es: seq<Packet>)
    requires WritableElems(es)
    ensures ApplyAll(w.(open := w.open + [Frame(tt, before)]), CallsElems(es)) ==
            w.(open := w.open + [Frame(tt, before + es)])
    decreases es
  {
    var now := w.(open := w.open + [Frame(tt, before)]);
    if es == [] {
      assert before + es == before;
    } else {
      assert now.open[..|w.open|] == w.open;
      CallsBuild(now, es[0]);
      ApplyConcat(now, Calls(es[0]), CallsElems(es[1..]));
      CallsElemsBuild(w, tt, before + [es[0]], es[1..]);
      assert before + [es[0]] + es[1..] == before + es;
    }
  }

  // ----- a run without errors is the calls of what it built

  lemma {:induction false} WritableSnoc(es: seq<Packet>, p: Packet)
    requires WritableElems(es) && Writable(p)
    ensures WritableElems(es + [p])
  {
    SnocElems(es, p);
  }

  lemma HistoryIs(w: Written)
    ensures History(w) == CallsDone(w.done) + CallsOpen(w.open)
  {
  }

  /** A packet put somewhere adds its calls to the history. */
  lemma PutInHistory(w: Written, p: Packet)
    requires Proper(w) && Writable(p)
    ensures History(PutIn(w, p)) == History(w) + Calls(p)
    ensures Proper(PutIn(w, p))
  {
    hide *;
    HistoryIs(w);
    HistoryIs(PutIn(w, p));
    PutInProper(w, p);
    if w.open == [] {
      PutInDone(w, p);
      DoneSnoc(w.done, p);
      NothingOpen(0);
    } else {
      PutInIs(w, p);
      PutInOpen(w, p, 0);
    }
    Regroup(CallsDone(w.done), CallsOpen(w.open), Calls(p), []);
  }

  lemma PutInProper(w: Written, p: Packet)
    requires Proper(w) && Writable(p)
    ensures Proper(PutIn(w, p))
  {
    hide Writable, WritableElems;
    if w.open != [] {
      var n := |w.open| - 1;
      WritableSnoc(w.open[n].elems, p);
      forall f | f in PutIn(w, p).open ensures WritableElems(f.elems) {
        if f != PutIn(w, p).open[n] {
          assert f in w.open;
        }
      }
    }
  }

  lemma ClosedWritable(f: Frame)
    requires WritableElems(f.elems)
    ensures Writable(Closed(f))
  {
  }

  /** Each call that raises no error adds itself to the history. */
  lemma StepHistory(w: Written, c: Call)
    requires Proper(w) && Sound(c) && w.err == Ok && Apply(w, c).err == Ok
    ensures History(Apply(w, c)) == History(w) + [c] && Proper(Apply(w, c))
  {
    match c
    case Start(tt) =>
      StartHistory(w, tt);
    case End =>
      EndHistory(w);
    case Add(raw) =>
      PutInHistory(w, Leaf(raw));
    case AddFailed(e) =>
  }

  lemma StartHistory(w: Written, tt: bits64)
    requires Proper(w)
    ensures History(Apply(w, Start(tt))) == History(w) + [Start(tt)] && Proper(Apply(w, Start(tt)))
  {
    hide CallsOpen, CallsDone, Writable, CallsElems, FlatElems, FlatOpen, Starts;
    OpenSnoc(w.open, Frame(tt, []), 0);
    StartIs(w, tt);
  }

  lemma EndHistory(w: Written)
    requires Proper(w) && w.open != []
    ensures History(Apply(w, End)) == History(w) + [End] && Proper(Apply(w, End))
  {
    hide *;
    var n := |w.open| - 1;
    var rest, f := w.open[..n], w.open[n];
    var inner := w.(open := rest);
    assert w.open == rest + [f];
    ProperInner(w);
    EndIs(w);
    HistoryIs(w);
    HistoryIs(inner);
    OpenSnoc(rest, f, 0);
    ClosedBytes(f);
    ClosedWritable(f);
    PutInHistory(inner, Closed(f));
  }

  lemma ProperInner(w: Written)
    requires Proper(w) && w.open != []
    ensures var n := |w.open| - 1;
            Proper(w.(open := w.open[..n])) && WritableElems(w.open[n].elems)
  {
    hide Writable, WritableElems;
  }

  lemma ApplyStep(w: Written, cs: seq<Call>)
    ensures ApplyAll(w, cs) == if cs == [] then w else ApplyAll(Apply(w, cs[0]), cs[1..])
  {
    hide Apply;
  }

  lemma {:induction false} RunHistory(w: Written, cs: seq<Call>)
    requires Proper(w) && forall c | c in cs :: Sound(c)
    requires ApplyAll(w, cs).err == Ok
    ensures w.err == Ok && History(ApplyAll(w, cs)) == History(w) + cs && Proper(ApplyAll(w, cs))
    decreases |cs|
  {
    hide *;
    ApplyStep(w, cs);
    if cs == [] {
      assert History(w) + [] == History(w);
    } else {
      var next := Apply(w, cs[0]);
      ErrorStays(w, cs);
      ErrorStays(next, cs[1..]);
      StepHistory(w, cs[0]);
      RunHistory(next, cs[1..]);
      assert cs == [cs[0]] + cs[1..];
      Regroup(History(w), [cs[0]], cs[1..], []);
    }
  }

  lemma {:induction false} ErrorStays(w: Written, cs: seq<Call>)
    ensures w.err != Ok ==> ApplyAll(w, cs).err == w.err
    decreases |cs|
  {
    if cs != [] {
      ErrorStays(Apply(w, cs[0]), cs[1..]);
    }
  }

  lemma InitialHistory()
    ensures History(INITIAL) == [] && Proper(INITIAL)
  {
  }

  /**
   The balanced call sequences: a run ends without error, with one finished packet and no open bundle, if
   and only if it is the sequence of calls of that packet.
   */
  lemma BalancedRuns(cs: seq<Call>, p: Packet)
    requires forall c | c in cs :: Sound(c)
    ensures ApplyAll(INITIAL, cs) == Written([p], [], Ok) <==> Writable(p) && cs == Calls(p)
  {
    if ApplyAll(INITIAL, cs) == Written([p], [], Ok) {
      InitialHistory();
      RunHistory(INITIAL, cs);
      OneDone(p);
      assert [] + cs == cs;
    }
    if Writable(p) && cs == Calls(p) {
      CallsBuild(INITIAL, p);
      assert [] + [p] == [p];
    }
  }

  lemma OneDone(p: Packet)
    ensures var w := Written([p], [], Ok);
            && History(w) == Calls(p) && FlatWritten(w) == Flat(p) && (Proper(w) ==> Writable(p))
  {
    hide *;
    var w := Written([p], [], Ok);
    HistoryIs(w);
    WrittenIs(w);
    DoneSnoc([], p);
    NothingIs();
    NothingOpen(0);
    ProperOne(p);
    assert [] + [p] == [p];
  }

  lemma ProperOne(p: Packet)
    ensures Proper(Written([p], [], Ok)) ==> Writable(p)
  {
    hide Writable, WritableElems;
    assert p in [p];
  }

  // ----- errors

  /** How many bundles are open after some calls that raised no error. */
  function Depth(cs: seq<Call>): int {
    if cs == [] then 0
    else
      var before := Depth(cs[..|cs| - 1]);
      match cs[|cs| - 1]
      case Start(_) => before + 1
      case End => before - 1
      case _ => before
  }

  /** Whether the call at `k` is in order, judging by the calls before it. */
  predicate InOrder(cs: seq<Call>, k: nat)
    requires k < |cs|
  {
    match cs[k]
    case Start(_) => true
    case End => Depth(cs[..k]) > 0
    case Add(_) => k == 0 || Depth(cs[..k]) > 0
    case AddFailed(_) => false
  }

  lemma ApplySnoc(w: Written, cs: seq<Call>)
    requires cs != []
    ensures ApplyAll(w, cs) == Apply(ApplyAll(w, cs[..|cs| - 1]), cs[|cs| - 1])
  {
    var n := |cs| - 1;
    assert cs == cs[..n] + [cs[n]];
    ApplyConcat(w, cs[..n], [cs[n]]);
    ApplyOne(ApplyAll(w, cs[..n]), cs[n]);
  }

  lemma {:induction false} DepthIsOpen(cs: seq<Call>)
    requires ApplyAll(INITIAL, cs).err == Ok
    ensures Depth(cs) == |ApplyAll(INITIAL, cs).open|
    decreases |cs|
  {
    if cs != [] {
      ApplySnoc(INITIAL, cs);
      DepthIsOpen(cs[..|cs| - 1]);
    }
  }

  /** After calls without an error, something is written unless there were no calls. */
  lemma WrittenAfterCalls(cs: seq<Call>)
    requires (forall c | c in cs :: Sound(c)) && ApplyAll(INITIAL, cs).err == Ok && cs != []
    ensures ApplyAll(INITIAL, cs).done != [] || ApplyAll(INITIAL, cs).open != []
  {
    InitialHistory();
    RunHistory(INITIAL, cs);
    HistoryIs(ApplyAll(INITIAL, cs));
    hide *;
    NothingIs();
    assert [] + cs == cs;
  }

  lemma NothingIs()
    ensures CallsDone([]) == [] && CallsOpen([]) == [] && FlatDone([]) == []
  {
  }

  /**
   The writer raises an error exactly when a call is out of order: a bundle closed that was not opened, a
   message after the first item that is in no bundle, or a message that is itself in error. Bundles left
   open are not among the reasons, nor is a second bundle next to the first item.
   */
  lemma {:induction false} ErrorIffOutOfOrder(cs: seq<Call>)
    requires forall c | c in cs :: Sound(c)
    ensures ApplyAll(INITIAL, cs).err == Ok <==> forall k | 0 <= k < |cs| :: InOrder(cs, k)
    decreases |cs|
  {
    if cs != [] {
      var n := |cs| - 1;
      var before := cs[..n];
      ApplySnoc(INITIAL, cs);
      ErrorIffOutOfOrder(before);
      forall k | 0 <= k < n ensures InOrder(cs, k) <==> InOrder(before, k) {
        assert cs[..k] == before[..k];
      }
      LastCall(before, cs[n]);
      assert (forall k | 0 <= k < |cs| :: InOrder(cs, k)) <==>
             (forall k | 0 <= k < n :: InOrder(before, k)) && InOrder(cs, n);
    }
  }

  lemma LastCall(before: seq<Call>, c: Call)
    requires (forall b | b in before :: Sound(b)) && Sound(c)
    ensures var w := ApplyAll(INITIAL, before);
            var cs := before + [c];
            && (w.err != Ok ==> Apply(w, c).err != Ok)
            && (w.err == Ok ==> (Apply(w, c).err == Ok <==> InOrder(cs, |before|)))
  {
    var w := ApplyAll(INITIAL, before);
    assert (before + [c])[..|before|] == before;
    if w.err == Ok {
      DepthIsOpen(before);
      if before != [] {
        WrittenAfterCalls(before);
      }
    }
  }

  /** The first call that is out of order decides the error. */
  lemma FirstOutOfOrder(cs: seq<Call>, k: nat)
    requires (forall c | c in cs :: Sound(c)) && k < |cs|
    requires (forall j | 0 <= j < k :: InOrder(cs, j)) && !InOrder(cs, k)
    ensures ApplyAll(INITIAL, cs).err ==
            match cs[k]
            case Start(_) => Ok
            case End => InvalidBundle
            case Add(_) => BundleRequiredForMultiMessages
            case AddFailed(e) => if k > 0 && Depth(cs[..k]) == 0 then BundleRequiredForMultiMessages else e
  {
    var before := cs[..k];
    var w := ApplyAll(INITIAL, before);
    assert forall c | c in before :: c in cs;
    forall j | 0 <= j < k ensures InOrder(before, j) {
      assert before[..j] == cs[..j] && InOrder(cs, j);
    }
    ErrorIffOutOfOrder(before);
    DepthIsOpen(before);
    OneError(cs, k);
    if before == [] {
      InitialIs();
    } else {
      WrittenAfterCalls(before);
    }
    assert cs[k] in cs;
    hide ApplyAll, Depth;
  }

  /** An error raised by the call at `k` stays to the end. */
  lemma OneError(cs: seq<Call>, k: nat)
    requires k < |cs|
    ensures var next := Apply(ApplyAll(INITIAL, cs[..k]), cs[k]);
            next.err != Ok ==> ApplyAll(INITIAL, cs).err == next.err
    ensures ApplyAll(INITIAL, []) == INITIAL
  {
    hide Apply;
    var next := Apply(ApplyAll(INITIAL, cs[..k]), cs[k]);
    assert cs == cs[..k] + ([cs[k]] + cs[k + 1..]);
    ApplyConcat(INITIAL, cs[..k], [cs[k]] + cs[k + 1..]);
    ApplyConcat(ApplyAll(INITIAL, cs[..k]), [cs[k]], cs[k + 1..]);
    ApplyOne(ApplyAll(INITIAL, cs[..k]), cs[k]);
    ErrorStays(next, cs[k + 1..]);
  }

  /** An error does not keep later calls from building what they build. */
  lemma {:induction false} ErrorsOnlyFlag(w: Written, e: ErrorCode, cs: seq<Call>)
    ensures ApplyAll(w.(err := e), cs).done == ApplyAll(w, cs).done
    ensures ApplyAll(w.(err := e), cs).open == ApplyAll(w, cs).open
    decreases |cs|
  {
    if cs != [] {
      var next, other := Apply(w, cs[0]), Apply(w.(err := e), cs[0]);
      assert other == next.(err := other.err);
      ErrorsOnlyFlag(next, other.err, cs[1..]);
    }
  }

  /** The error flag stays down although a bundle was never closed. */
  lemma UnclosedBundleIsNotFlagged(tt: bits64)
    ensures ApplyAll(INITIAL, [Start(tt)]) == Written([], [Frame(tt, [])], Ok)
  {
    ApplyOne(INITIAL, Start(tt));
  }

  /** The error flag stays down although two bundles follow each other in one packet. */
  lemma SecondBundleIsNotFlagged(tt: bits64)
    ensures ApplyAll(INITIAL, [Start(tt), End, Start(tt), End]) ==
            Written([Bundle(tt, [Nothing]), Bundle(tt, [Nothing])], [], Ok)
  {
    hide *;
    var p, f := Bundle(tt, [Nothing]), Frame(tt, []);
    var once := Written([p], [], Ok);
    InitialIs();
    OpenAndClose(INITIAL, tt);
    OpenAndClose(once, tt);
    assert [Start(tt), End, Start(tt), End] == [Start(tt), End] + [Start(tt), End];
    ApplyConcat(INITIAL, [Start(tt), End], [Start(tt), End]);
    assert [] + [p] == [p] && [p] + [p] == [p, p];
  }

  lemma InitialIs()
    ensures INITIAL == Written([], [], Ok)
  {
  }

  lemma OpenAndClose(w: Written, tt: bits64)
    requires w.open == []
    ensures ApplyAll(w, [Start(tt), End]) == w.(done := w.done + [Bundle(tt, [Nothing])])
  {
    assert [Start(tt), End] == [Start(tt)] + [] + [End];
    BundleSteps(w, tt, []);
    assert [] + [Frame(tt, [])] == [Frame(tt, [])];
  }
}
