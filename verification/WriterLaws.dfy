/**
 Back-patching builds the recursive encoding: how each writer call changes the bytes, which call
 sequences build which packet, and when the writer raises an error.
 */
module WriterLaws {
  import opened Bytes
  import opened Pod
  import opened MessageFormat
  import opened Messages
  import opened PacketFormat
  import opened ReaderLaws
  import opened WriterFormat

  // ----- elements appended at the end

  lemma ConsFacts(e: Packet, es: seq<Packet>)
    ensures FlatElems([e] + es) == SizeWord(|Flat(e)|) + Flat(e) + FlatElems(es)
    ensures WritableElems([e] + es) <==> Writable(e) && WritableElems(es)
    ensures CallsElems([e] + es) == Calls(e) + CallsElems(es)
  {
    hide Flat, Writable, Calls;
    assert ([e] + es)[1..] == es;
  }

  lemma NilFacts()
    ensures FlatElems([]) == [] && WritableElems([]) && CallsElems([]) == []
  {
  }

  lemma {:induction false} SnocElems(es: seq<Packet>, p: Packet)
    ensures FlatElems(es + [p]) == FlatElems(es) + SizeWord(|Flat(p)|) + Flat(p)
    ensures WritableElems(es + [p]) <==> WritableElems(es) && Writable(p)
    ensures CallsElems(es + [p]) == CallsElems(es) + Calls(p)
    decreases |es|
  {
    hide *;
    if es == [] {
      NilFacts();
      ConsFacts(p, []);
      assert [] + [p] == [p] + [];
    } else {
      var e, rest := es[0], es[1..];
      SnocElems(rest, p);
      ConsFacts(e, rest);
      ConsFacts(e, rest + [p]);
      assert es == [e] + rest && es + [p] == [e] + (rest + [p]);
      Regroup(SizeWord(|Flat(e)|) + Flat(e), FlatElems(rest), SizeWord(|Flat(p)|), Flat(p));
      Regroup(Calls(e), CallsElems(rest), Calls(p), []);
    }
  }

  lemma DoneSnoc(ps: seq<Packet>, p: Packet)
    ensures FlatDone(ps + [p]) == FlatDone(ps) + Flat(p)
    ensures CallsDone(ps + [p]) == CallsDone(ps) + Calls(p)
  {
    hide Flat, Calls;
    assert (ps + [p])[..|ps|] == ps;
  }

  lemma OpenSnoc(open: seq<Frame>, f: Frame, base: nat)
    ensures FlatOpen(open + [f]) == FlatOpen(open) + Hole(|open|) + Header(f.tt) + FlatElems(f.elems)
    ensures CallsOpen(open + [f]) == CallsOpen(open) + [Start(f.tt)] + CallsElems(f.elems)
    ensures Starts(base, open + [f]) == Starts(base, open) + [base + |FlatOpen(open)| + |Hole(|open|)|]
  {
    hide FlatElems, CallsElems, Header;
    assert (open + [f])[..|open|] == open;
  }

  lemma PutInIs(w: Written, p: Packet)
    requires w.open != []
    ensures var n := |w.open| - 1;
            PutIn(w, p) == w.(open := w.open[..n] + [Frame(w.open[n].tt, w.open[n].elems + [p])])
  {
  }

  lemma Regroup<T>(a: seq<T>, b: seq<T>, c: seq<T>, d: seq<T>)
    ensures a + (b + c + d) == a + b + c + d
    ensures a + (b + c) == a + b + c
  {
  }

  /** A packet put into the innermost open bundle is appended after its size; no bundle moves. */
  lemma PutInOpen(w: Written, p: Packet, base: nat)
    requires w.open != []
    ensures FlatOpen(PutIn(w, p).open) == FlatOpen(w.open) + SizeWord(|Flat(p)|) + Flat(p)
    ensures CallsOpen(PutIn(w, p).open) == CallsOpen(w.open) + Calls(p)
    ensures Starts(base, PutIn(w, p).open) == Starts(base, w.open)
  {
    hide *;
    var n := |w.open| - 1;
    var rest, f := w.open[..n], w.open[n];
    assert w.open == rest + [f];
    PutInIs(w, p);
    OpenSnoc(rest, f, base);
    OpenSnoc(rest, Frame(f.tt, f.elems + [p]), base);
    SnocElems(f.elems, p);
    Regroup(FlatOpen(rest) + Hole(n) + Header(f.tt), FlatElems(f.elems), SizeWord(|Flat(p)|), Flat(p));
    Regroup(CallsOpen(rest) + [Start(f.tt)], CallsElems(f.elems), Calls(p), []);
  }

  lemma ZeroWord()
    ensures ToWire(4, 0) == Zeros(4)
  {
    assert ToWire(4, 0) == ToWire(3, 0) + [0];
    assert ToWire(3, 0) == ToWire(2, 0) + [0];
    assert ToWire(2, 0) == ToWire(1, 0) + [0];
    assert ToWire(1, 0) == ToWire(0, 0) + [0];
  }

  lemma EmptyElement()
    ensures FlatElems([Nothing]) == Zeros(4) && CallsElems([Nothing]) == []
  {
    ZeroWord();
    assert Flat(Nothing) == [] && Calls(Nothing) == [];
    assert [Nothing][1..] == [];
    assert SizeWord(0) == Zeros(4);
  }

  /** The bytes of a bundle that is closed: those of its frame, and a zero word if it has no element. */
  lemma ClosedBytes(f: Frame)
    ensures Flat(Closed(f)) == Header(f.tt) + FlatElems(f.elems) + (if f.elems == [] then Zeros(4) else [])
    ensures f.elems == [] <==> |Header(f.tt) + FlatElems(f.elems)| == 16
    ensures Calls(Closed(f)) == [Start(f.tt)] + CallsElems(f.elems) + [End]
  {
    EmptyElement();
    if f.elems != [] {
      GoodElemsAreLong(f.elems);
    }
  }

  // ----- the bytes after each call

  lemma WrittenIs(w: Written)
    ensures FlatWritten(w) == FlatDone(w.done) + FlatOpen(w.open)
  {
  }

  lemma StartIs(w: Written, tt: bits64)
    ensures Apply(w, Start(tt)) == w.(open := w.open + [Frame(tt, [])])
    ensures FlatElems([]) == [] && CallsElems([]) == []
  {
  }

  lemma EndIs(w: Written)
    requires w.open != []
    ensures var n := |w.open| - 1;
            Apply(w, End) == PutIn(w.(open := w.open[..n]), Closed(w.open[n]))
  {
    hide PutIn, Closed;
  }

  lemma PutInDone(w: Written, p: Packet)
    requires w.open == []
    ensures PutIn(w, p) == w.(done := w.done + [p])
  {
  }

  lemma HoleIs(n: nat)
    ensures Hole(n) == if n == 0 then [] else Zeros(4)
  {
  }

  /** `startBundle`: a hole for the size, unless the bundle is outermost, and the header. */
  lemma StartBytes(w: Written, tt: bits64)
    ensures FlatWritten(Apply(w, Start(tt))) == FlatWritten(w) + Hole(|w.open|) + Header(tt)
    ensures Starts(|FlatDone(w.done)|, Apply(w, Start(tt)).open) ==
            Starts(|FlatDone(w.done)|, w.open) + [|FlatWritten(w)| + |Hole(|w.open|)|]
  {
    hide *;
    var w' := Apply(w, Start(tt));
    StartIs(w, tt);
    WrittenIs(w);
    WrittenIs(w');
    OpenSnoc(w.open, Frame(tt, []), |FlatDone(w.done)|);
    Regroup(FlatDone(w.done), FlatOpen(w.open), Hole(|w.open|), Header(tt));
    assert |FlatWritten(w)| == |FlatDone(w.done)| + |FlatOpen(w.open)|;
  }

  /** Appending a message, with its size inside a bundle. */
  lemma AddBytes(w: Written, raw: bytes)
    requires !Full(w)
    ensures var w' := Apply(w, Add(raw));
            && FlatWritten(w') == FlatWritten(w) + (if w.open == [] then [] else SizeWord(|raw|)) + raw
            && Starts(|FlatDone(w'.done)|, w'.open) == Starts(|FlatDone(w.done)|, w.open)
  {
    hide *;
    var w' := Apply(w, Add(raw));
    AddStep(w, raw);
    WrittenIs(w);
    WrittenIs(w');
    if w.open == [] {
      PutInDone(w, Leaf(raw));
      DoneSnoc(w.done, Leaf(raw));
      NothingOpen(|FlatDone(w.done)|);
      NothingOpen(|FlatDone(w'.done)|);
    } else {
      PutInIs(w, Leaf(raw));
      PutInOpen(w, Leaf(raw), |FlatDone(w.done)|);
      Regroup(FlatDone(w.done), FlatOpen(w.open), SizeWord(|raw|), raw);
    }
  }

  lemma AddStep(w: Written, raw: bytes)
    requires !Full(w)
    ensures Apply(w, Add(raw)) == PutIn(w, Leaf(raw)) && Flat(Leaf(raw)) == raw
  {
    hide PutIn, Full;
  }

  /**
   `endBundle`: after a zero word for an empty bundle, the bundle is what stands from its start on; if it
   is nested, its size in the hole before its start makes it an element of the bundle around it.
   */
  lemma EndBytes(w: Written)
    requires w.open != []
    ensures var n, w' := |w.open| - 1, Apply(w, End);
            var f := w.open[n];
            var before := FlatDone(w.done) + FlatOpen(w.open[..n]);
            var bundle := Flat(Closed(f));
            && Starts(|FlatDone(w.done)|, w.open)[n] == |before| + |Hole(n)|
            && FlatWritten(w) + (if f.elems == [] then Zeros(4) else []) == before + Hole(n) + bundle
            && FlatWritten(w') == before + (if n == 0 then [] else SizeWord(|bundle|)) + bundle
            && Starts(|FlatDone(w'.done)|, w'.open) == Starts(|FlatDone(w.done)|, w.open)[..n]
  {
    hide *;
    var n, base := |w.open| - 1, |FlatDone(w.done)|;
    var rest, f := w.open[..n], w.open[n];
    var inner := w.(open := rest);
    assert w.open == rest + [f];
    EndIs(w);
    ClosedBytes(f);
    OpenSnoc(rest, f, base);
    WrittenIs(w);
    WrittenIs(Apply(w, End));
    HoleIs(n);
    ClosingBytes(FlatDone(w.done), FlatOpen(rest), Hole(n), Header(f.tt), FlatElems(f.elems),
                 if f.elems == [] then Zeros(4) else []);
    if n == 0 {
      assert rest == [];
      NothingOpen(base);
      PutInDone(inner, Closed(f));
      DoneSnoc(w.done, Closed(f));
      NothingOpen(|FlatDone(w.done + [Closed(f)])|);
    } else {
      PutInIs(inner, Closed(f));
      PutInOpen(inner, Closed(f), base);
      Regroup(FlatDone(w.done), FlatOpen(rest), SizeWord(|Flat(Closed(f))|), Flat(Closed(f)));
    }
  }

  lemma ClosingBytes(done: bytes, open: bytes, hole: bytes, header: bytes, elems: bytes, last: bytes)
    ensures done + (open + hole + header + elems) + last == (done + open) + hole + (header + elems + last)
  {
  }

  lemma NothingOpen(base: nat)
    ensures FlatOpen([]) == [] && Starts(base, []) == [] && CallsOpen([]) == []
  {
  }
}
