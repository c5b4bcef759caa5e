/**
 Chains of typed pops over the arguments of a message.
 */
module Pops {
  import opened Bytes
  import opened MessageFormat

  datatype Pop = AsInt32 | AsInt64 | AsFloat | AsDouble | AsStr | AsBlob | AsBool | AsAny

  /** The state of a reader: its error code and the index of the next argument. */
  datatype Cursor = Cursor(err: ErrorCode, idx: nat)

  /** The type tag that a pop of a single type asks for. */
  function Wanted(pop: Pop): byte
    requires !pop.AsBool? && !pop.AsAny?
  {
    match pop
    case AsInt32 => TAG_INT32
    case AsInt64 => TAG_INT64
    case AsFloat => TAG_FLOAT
    case AsDouble => TAG_DOUBLE
    case AsStr => TAG_STRING
    case AsBlob => TAG_BLOB
  }

  /** One pop on a message of `n` arguments. `AsBool` moves on even when it fails. */
  function Step(n: nat, tags: bytes, c: Cursor, pop: Pop): Cursor
    requires n <= |tags|
  {
    match pop
    case AsAny =>
      if c.idx >= n then c.(err := Raise(c.err, NotEnoughArg)) else c.(idx := c.idx + 1)
    case AsBool =>
      var err :=
        if c.idx >= n then Raise(c.err, NotEnoughArg)
        else if c.err == Ok && (tags[c.idx] == TAG_TRUE || tags[c.idx] == TAG_FALSE) then Ok
        else Raise(c.err, TypeMismatch);
      Cursor(err, c.idx + 1)
    case _ =>
      var err :=
        if c.idx >= n then Raise(c.err, NotEnoughArg)
        else if c.err == Ok && tags[c.idx] != Wanted(pop) then TypeMismatch
        else c.err;
      Cursor(err, if err == Ok then c.idx + 1 else c.idx)
  }

  function Run(n: nat, tags: bytes, c: Cursor, pops: seq<Pop>): Cursor
    requires n <= |tags|
    decreases |pops|
  {
    if pops == [] then c else Run(n, tags, Step(n, tags, c, pops[0]), pops[1..])
  }

  /** Where a reader starts: an error of the message comes before a mismatch of the pattern. */
  function Start(err: ErrorCode, matched: bool): Cursor {
    Cursor(if matched then err else Raise(err, PatternMismatch), 0)
  }

  const SIZE_RANGE: nat := 0x1_0000_0000_0000_0000

  /** The number of arguments left, as an unsigned machine word. */
  function Remaining(n: nat, c: Cursor): int {
    if c.idx <= n then n - c.idx else n - c.idx + SIZE_RANGE
  }

  /** Whether a pop fits an argument. */
  predicate Fitting(pop: Pop, a: Arg) {
    match pop
    case AsAny => true
    case AsBool => a.True? || a.False?
    case _ => TagOf(a) == Wanted(pop)
  }

  predicate AllFitting(pops: seq<Pop>, args: seq<Arg>) {
    |pops| <= |args| && forall i | 0 <= i < |pops| :: Fitting(pops[i], args[i])
  }

  lemma FittingTag(pop: Pop, a: Arg)
    ensures Fitting(pop, a) <==>
            match pop
            case AsAny => true
            case AsBool => TagOf(a) == TAG_TRUE || TagOf(a) == TAG_FALSE
            case _ => TagOf(a) == Wanted(pop)
  {
  }

  /** An error stays. */
  lemma {:induction false} ErrorStays(n: nat, tags: bytes, c: Cursor, pops: seq<Pop>)
    requires n <= |tags| && c.err != Ok
    ensures Run(n, tags, c, pops).err == c.err
    decreases |pops|
  {
    if pops != [] {
      ErrorStays(n, tags, Step(n, tags, c, pops[0]), pops[1..]);
    }
  }

  /**
   From any position: a chain of pops succeeds if and only if each pop finds an argument that it fits,
   and then it has moved on by exactly one argument per pop.
   */
  lemma {:induction false} RunExact(args: seq<Arg>, c: Cursor, pops: seq<Pop>)
    requires c.idx <= |args|
    ensures Run(|args|, Tags(args), c, pops).err == Ok <==> c.err == Ok && AllFitting(pops, args[c.idx..])
    ensures Run(|args|, Tags(args), c, pops).err == Ok ==>
              Run(|args|, Tags(args), c, pops).idx == c.idx + |pops| <= |args|
    decreases |pops|
  {
    if c.err != Ok {
      ErrorStays(|args|, Tags(args), c, pops);
    } else if pops != [] {
      var next := Step(|args|, Tags(args), c, pops[0]);
      if c.idx == |args| {
        ErrorStays(|args|, Tags(args), next, pops[1..]);
      } else {
        FittingTag(pops[0], args[c.idx]);
        RunExact(args, next, pops[1..]);
        var rest := args[c.idx..];
        assert rest[0] == args[c.idx] && rest[1..] == args[c.idx + 1..];
        FittingCons(pops, rest);
      }
    }
  }

  lemma FittingCons(pops: seq<Pop>, args: seq<Arg>)
    requires pops != [] && args != []
    ensures AllFitting(pops, args) <==> Fitting(pops[0], args[0]) && AllFitting(pops[1..], args[1..])
  {
    if Fitting(pops[0], args[0]) && AllFitting(pops[1..], args[1..]) {
      forall i | 0 <= i < |pops| ensures Fitting(pops[i], args[i]) {
        if i > 0 {
          assert Fitting(pops[1..][i - 1], args[1..][i - 1]);
        }
      }
    }
  }

  /**
   A chain of pops on a good message ends well with no argument left if and only if the pattern matched
   and the pops are exactly the types of the arguments, in order.
   */
  lemma PopChainExact(args: seq<Arg>, matched: bool, pops: seq<Pop>)
    ensures var c := Run(|args|, Tags(args), Start(Ok, matched), pops);
            (c.err == Ok && Remaining(|args|, c) == 0) <==> matched && |pops| == |args| && AllFitting(pops, args)
  {
    RunExact(args, Start(Ok, matched), pops);
    assert args[0..] == args;
  }

  /** As long as no error is set, the next pop is for the argument that follows those already popped. */
  lemma PopsInOrder(args: seq<Arg>, matched: bool, pops: seq<Pop>, k: nat)
    requires k <= |pops| && Run(|args|, Tags(args), Start(Ok, matched), pops[..k]).err == Ok
    ensures Run(|args|, Tags(args), Start(Ok, matched), pops[..k]) == Cursor(Ok, k) && k <= |args|
  {
    RunExact(args, Start(Ok, matched), pops[..k]);
  }

  // ----- chains that fail

  /** The type tags that a pop takes, in characters: i, h, f, d, s, b, and T or F for a boolean. */
  predicate Takes(pop: Pop, tag: byte) {
    match pop
    case AsInt32 => tag == 105
    case AsInt64 => tag == 104
    case AsFloat => tag == 102
    case AsDouble => tag == 100
    case AsStr => tag == 115
    case AsBlob => tag == 98
    case AsBool => tag in {84, 70}
    case AsAny => true
  }

  /**
   One pop: an error stays; there is one if no argument is left, or if the next has another type. The index
   moves on with success, and in any case after a boolean; skipping only needs an argument.
   */
  lemma StepMeans(n: nat, tags: bytes, c: Cursor, pop: Pop)
    requires n <= |tags|
    ensures var next := Step(n, tags, c, pop);
            && (c.err != Ok ==> next.err == c.err)
            && (c.err == Ok && c.idx >= n ==> next.err == NotEnoughArg)
            && (c.err == Ok && c.idx < n && !Takes(pop, tags[c.idx]) ==> next.err == TypeMismatch)
            && (c.err == Ok && c.idx < n && Takes(pop, tags[c.idx]) ==> next.err == Ok)
            && (next.idx == c.idx + 1 <==> next.err == Ok || pop.AsBool? || (pop.AsAny? && c.idx < n))
            && (next.idx == c.idx || next.idx == c.idx + 1)
  {
  }

  lemma FittingTakes(pop: Pop, a: Arg)
    ensures Fitting(pop, a) <==> Takes(pop, TagOf(a))
  {
  }

  lemma {:induction false} RunConcat(n: nat, tags: bytes, c: Cursor, a: seq<Pop>, b: seq<Pop>)
    requires n <= |tags|
    ensures Run(n, tags, c, a + b) == Run(n, tags, Run(n, tags, c, a), b)
    decreases |a|
  {
    hide Step;
    if a == [] {
      assert a + b == b;
    } else {
      assert (a + b)[1..] == a[1..] + b;
      RunConcat(n, tags, Step(n, tags, c, a[0]), a[1..], b);
    }
  }

  /**
   The first pop that does not fit decides the error of a chain: not enough arguments if none is left for
   it, and else a type mismatch. If the pattern did not match, that is the error, whatever the pops.
   */
  lemma FirstMisfit(args: seq<Arg>, pops: seq<Pop>, k: nat)
    requires k < |pops| && AllFitting(pops[..k], args) && (k == |args| || !Fitting(pops[k], args[k]))
    ensures Run(|args|, Tags(args), Start(Ok, true), pops).err == if k == |args| then NotEnoughArg else TypeMismatch
    ensures Run(|args|, Tags(args), Start(Ok, false), pops).err == PatternMismatch
  {
    var n, tags, start := |args|, Tags(args), Start(Ok, true);
    assert pops == pops[..k] + ([pops[k]] + pops[k + 1..]);
    assert args[0..] == args;
    RunExact(args, start, pops[..k]);
    var c := Run(n, tags, start, pops[..k]);
    StepMeans(n, tags, c, pops[k]);
    if k < n {
      FittingTakes(pops[k], args[k]);
    }
    RunConcat(n, tags, start, pops[..k], [pops[k]] + pops[k + 1..]);
    assert ([pops[k]] + pops[k + 1..])[1..] == pops[k + 1..];
    ErrorStays(n, tags, Step(n, tags, c, pops[k]), pops[k + 1..]);
    ErrorStays(n, tags, Start(Ok, false), pops);
  }

  /** Booleans are passed over even when there is none, or an error: the index may end up past the arguments. */
  lemma {:induction false} BooleansMoveOn(n: nat, tags: bytes, c: Cursor, pops: seq<Pop>)
    requires n <= |tags| && forall p | p in pops :: p == AsBool
    ensures Run(n, tags, c, pops).idx == c.idx + |pops|
    decreases |pops|
  {
    if pops != [] {
      assert pops[0] in pops && forall p | p in pops[1..] :: p in pops;
      StepMeans(n, tags, c, pops[0]);
      BooleansMoveOn(n, tags, Step(n, tags, c, pops[0]), pops[1..]);
    }
  }

  /** Skipping goes on until no argument is left, whether there is an error or not. */
  lemma {:induction false} SkipsMoveOn(n: nat, tags: bytes, c: Cursor, pops: seq<Pop>)
    requires n <= |tags| && c.idx <= n && forall p | p in pops :: p == AsAny
    ensures Run(n, tags, c, pops).idx == if c.idx + |pops| <= n then c.idx + |pops| else n
    decreases |pops|
  {
    if pops != [] {
      assert pops[0] in pops && forall p | p in pops[1..] :: p in pops;
      StepMeans(n, tags, c, pops[0]);
      SkipsMoveOn(n, tags, Step(n, tags, c, pops[0]), pops[1..]);
    }
  }

  /** All other pops stay where they are after an error. */
  lemma {:induction false} OthersStay(n: nat, tags: bytes, c: Cursor, pops: seq<Pop>)
    requires n <= |tags| && c.err != Ok && AsBool !in pops && AsAny !in pops
    ensures Run(n, tags, c, pops) == c
    decreases |pops|
  {
    if pops != [] {
      assert pops[0] in pops;
      StepMeans(n, tags, c, pops[0]);
      OthersStay(n, tags, Step(n, tags, c, pops[0]), pops[1..]);
    }
  }

  /** The number of arguments left is what has not been popped; past the arguments it wraps around to a huge one. */
  lemma RemainingMeans(n: nat, c: Cursor)
    requires n < 0x1_0000_0000_0000_0000 && c.idx < 0x1_0000_0000_0000_0000
    ensures 0 <= Remaining(n, c) < 0x1_0000_0000_0000_0000
    ensures (Remaining(n, c) + c.idx - n) % 0x1_0000_0000_0000_0000 == 0
  {
  }
}
