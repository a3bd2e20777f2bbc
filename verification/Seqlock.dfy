/**
 The two sequence locks, as one machine: a single writer and any number of readers, whose steps
 are the loads and stores of the counter and the copying of one word of the value.
 */
module Seqlock {
  import opened WordArith

  // The counter wraps at 2 * half. The two classes differ only in where `load` tests for an odd
  // counter: seqlock before copying, isr_seqlock together with the comparison afterwards.

  datatype Config = Config(half: nat, words: nat, combinedTest: bool) {
    ghost predicate Valid() {
      half > 0
    }

    function Next(counter: nat, d: nat): nat
      requires half > 0
    {
      (counter + d) % (2 * half)
    }
  }

  type Value<W> = seq<W>

  datatype Writer<W> =
    | WriterIdle
    | StoreHasSeq(desired: Value<W>, s: nat)
    | UpdateHasSeq(s: nat)
    | UpdateReading(s: nat, snapshot: Value<W>)   // seq_ is odd; copying value_ out
    | Writing(desired: Value<W>, s: nat, i: nat)  // seq_ is odd; i words written

  /** `begun` and `commits` record how many stores had begun and how many had been committed
      when the attempt loaded s1. */
  datatype Reader<W> =
    | ReaderIdle
    | AttemptStart
    | Copying(s1: nat, snapshot: Value<W>, begun: nat, commits: nat)
    | Returned(result: Value<W>, begun: nat, commits: nat)

  /** `history` is the sequence of committed values, first the initial one; `begun` counts the
      stores and updates whose first store to seq_ has happened. */
  datatype State<W> = State(
    seqNo: nat,
    value: Value<W>,
    writer: Writer<W>,
    readers: seq<Reader<W>>,
    history: seq<Value<W>>,
    begun: nat)

  /** `Callback(d)` is the return of update's function with the value d. */
  datatype Event<W> =
    | StartStore(desired: Value<W>)
    | StartUpdate
    | Callback(desired: Value<W>)
    | WriterMoves
    | StartLoad(r: nat)
    | ReaderMoves(r: nat)

  function Init<W>(initial: Value<W>, readers: nat): State<W> {
    State(0, initial, WriterIdle, seq(readers, _ => ReaderIdle), [initial], 0)
  }

  function WriterStep<W>(c: Config, s: State<W>): State<W>
    requires c.Valid()
  {
    match s.writer
    case WriterIdle => s
    case StoreHasSeq(d, q) =>
      s.(seqNo := c.Next(q, 1), writer := Writing(d, q, 0), begun := s.begun + 1)
    case UpdateHasSeq(q) =>
      s.(seqNo := c.Next(q, 1), writer := UpdateReading(q, []), begun := s.begun + 1)
    case UpdateReading(q, snap) =>
      if |snap| < |s.value| then s.(writer := UpdateReading(q, snap + [s.value[|snap|]])) else s
    case Writing(d, q, i) =>
      if i < |d| && i < |s.value| then s.(value := s.value[i := d[i]], writer := Writing(d, q, i + 1))
      else s.(seqNo := c.Next(q, 2), writer := WriterIdle, history := s.history + [s.value])
  }

  function ReaderStep<W>(c: Config, s: State<W>, x: Reader<W>): Reader<W>
    requires c.Valid()
  {
    match x
    case ReaderIdle => x
    case Returned(_, _, _) => x
    case AttemptStart =>
      if !c.combinedTest && s.seqNo % 2 == 1 then x
      else Copying(s.seqNo, [], s.begun, |s.history|)
    case Copying(s1, snap, begun, commits) =>
      if |snap| < |s.value| then Copying(s1, snap + [s.value[|snap|]], begun, commits)
      else if s1 == s.seqNo && !(c.combinedTest && s1 % 2 == 1) then Returned(snap, begun, commits)
      else AttemptStart
  }

  /** One step; events that do not apply, or carry a value of the wrong size, change nothing. */
  function Step<W>(c: Config, s: State<W>, e: Event<W>): State<W>
    requires c.Valid()
  {
    match e
    case StartStore(d) =>
      if s.writer.WriterIdle? && |d| == c.words then s.(writer := StoreHasSeq(d, s.seqNo)) else s
    case StartUpdate =>
      if s.writer.WriterIdle? then s.(writer := UpdateHasSeq(s.seqNo)) else s
    case Callback(d) =>
      if s.writer.UpdateReading? && |s.writer.snapshot| == c.words && |d| == c.words
      then s.(writer := Writing(d, s.writer.s, 0)) else s
    case WriterMoves => WriterStep(c, s)
    case StartLoad(r) =>
      if r < |s.readers| && (s.readers[r].ReaderIdle? || s.readers[r].Returned?)
      then s.(readers := s.readers[r := AttemptStart]) else s
    case ReaderMoves(r) =>
      if r < |s.readers| then s.(readers := s.readers[r := ReaderStep(c, s, s.readers[r])]) else s
  }

  function Run<W>(c: Config, s: State<W>, events: seq<Event<W>>): State<W>
    requires c.Valid()
    decreases |events|
  {
    if events == [] then s else Run(c, Step(c, s, events[0]), events[1..])
  }

  // ---- the invariant ----

  predicate InProgress<W>(s: State<W>) {
    s.writer.UpdateReading? || s.writer.Writing?
  }

  /** What the counter would be if it never wrapped. */
  function Unwrapped<W>(s: State<W>): int {
    s.begun + |s.history| - 1
  }

  function Latest<W>(s: State<W>): Value<W>
    requires s.history != []
  {
    s.history[|s.history| - 1]
  }

  ghost predicate WriterInv<W>(c: Config, s: State<W>)
    requires c.Valid() && s.history != []
  {
    && |s.value| == |Latest(s)| == c.words
    && s.begun == |s.history| - 1 + (if InProgress(s) then 1 else 0)
    && match s.writer
       case WriterIdle => s.value == Latest(s)
       case StoreHasSeq(d, q) => q == s.seqNo && |d| == c.words && s.value == Latest(s)
       case UpdateHasSeq(q) => q == s.seqNo && s.value == Latest(s)
       case UpdateReading(q, snap) =>
         && c.Next(q, 1) == s.seqNo && q == (Unwrapped(s) - 1) % (2 * c.half)
         && s.value == Latest(s) && |snap| <= c.words && snap == Latest(s)[..|snap|]
       case Writing(d, q, i) =>
         && q == (Unwrapped(s) - 1) % (2 * c.half)
         && |d| == c.words && i <= c.words && s.value == d[..i] + Latest(s)[i..]
  }

  /** A copy made while the counter has not moved from an even value is a piece of the
      committed value. */
  ghost predicate ReaderInv<W>(c: Config, s: State<W>, x: Reader<W>)
    requires c.Valid() && s.history != [] && |Latest(s)| == c.words
  {
    x.Copying? ==>
      && x.commits - 1 <= x.begun <= x.commits <= |s.history| && x.begun <= s.begun
      && 0 < x.commits
      && x.s1 == (x.begun + x.commits - 1) % (2 * c.half)
      && |x.snapshot| <= c.words
      && (Clean(s, x) ==> x.snapshot == Latest(s)[..|x.snapshot|])
  }

  /** No store was under way when the attempt began and none has begun since. */
  predicate Clean<W>(s: State<W>, x: Reader<W>)
    requires x.Copying?
  {
    x.begun == s.begun && x.begun == x.commits - 1
  }

  ghost predicate Inv<W>(c: Config, s: State<W>) {
    && c.Valid()
    && s.history != []
    && s.seqNo == Unwrapped(s) % (2 * c.half)
    && WriterInv(c, s)
    && (forall r :: 0 <= r < |s.readers| ==> ReaderInv(c, s, s.readers[r]))
  }

  lemma InitInv<W>(c: Config, initial: Value<W>, readers: nat)
    requires c.Valid() && |initial| == c.words
    ensures Inv(c, Init(initial, readers))
  {
    ModUnique(0, 2 * c.half, 0, 0);
  }

  /** Wrapping at an even number keeps the parity. */
  lemma WrapParity(x: nat, half: nat)
    requires half > 0
    ensures (x % (2 * half)) % 2 == x % 2
  {
    WrapThenMod(x, 2 * half, 2, half);
  }

  lemma CommitKeepsInv<W>(c: Config, s: State<W>)
    requires Inv(c, s) && s.writer.Writing? && s.writer.i == c.words
    ensures Inv(c, WriterStep(c, s))
  {
    WrapAdd(Unwrapped(s) - 1, 2, 2 * c.half);
    assert s.value == s.writer.desired;
  }

  lemma WordKeepsInv<W>(c: Config, s: State<W>)
    requires Inv(c, s) && s.writer.Writing? && s.writer.i < c.words
    ensures Inv(c, WriterStep(c, s))
  {
    var t := WriterStep(c, s);
    var d, i := s.writer.desired, s.writer.i;
    assert t.value == d[..i + 1] + Latest(t)[i + 1..];
  }

  lemma BeginKeepsInv<W>(c: Config, s: State<W>)
    requires Inv(c, s) && (s.writer.StoreHasSeq? || s.writer.UpdateHasSeq?)
    ensures Inv(c, WriterStep(c, s))
  {
    var t := WriterStep(c, s);
    WrapAdd(Unwrapped(s), 1, 2 * c.half);
    if s.writer.StoreHasSeq? {
      var d := s.writer.desired;
      assert t.value == d[..0] + Latest(t)[0..];
    }
  }

  lemma WriterKeepsInv<W>(c: Config, s: State<W>)
    requires Inv(c, s)
    ensures Inv(c, WriterStep(c, s))
  {
    match s.writer
    case WriterIdle =>
    case StoreHasSeq(_, _) => BeginKeepsInv(c, s);
    case UpdateHasSeq(_) => BeginKeepsInv(c, s);
    case UpdateReading(_, snap) =>
      if |snap| < c.words {
        assert snap + [s.value[|snap|]] == Latest(s)[..|snap| + 1];
      }
    case Writing(_, _, i) =>
      if i < c.words {
        WordKeepsInv(c, s);
      } else {
        CommitKeepsInv(c, s);
      }
  }

  lemma ReaderKeepsInv<W>(c: Config, s: State<W>, x: Reader<W>)
    requires Inv(c, s) && ReaderInv(c, s, x)
    ensures ReaderInv(c, s, ReaderStep(c, s, x))
  {
    if x.Copying? && |x.snapshot| < c.words && Clean(s, x) {
      assert !InProgress(s);
      assert x.snapshot + [s.value[|x.snapshot|]] == Latest(s)[..|x.snapshot| + 1];
    }
  }

  lemma StepKeepsInv<W>(c: Config, s: State<W>, e: Event<W>)
    requires Inv(c, s)
    ensures Inv(c, Step(c, s, e))
  {
    match e
    case WriterMoves => WriterKeepsInv(c, s);
    case ReaderMoves(r) =>
      if r < |s.readers| {
        ReaderKeepsInv(c, s, s.readers[r]);
      }
    case Callback(d) =>
      var t := Step(c, s, e);
      if t != s {
        assert t.value == d[..0] + Latest(t)[0..];
      }
    case _ =>
  }

  lemma {:induction false} RunKeepsInv<W>(c: Config, s: State<W>, events: seq<Event<W>>)
    requires Inv(c, s)
    ensures Inv(c, Run(c, s, events))
    decreases |events|
  {
    if events != [] {
      StepKeepsInv(c, s, events[0]);
      RunKeepsInv(c, Step(c, s, events[0]), events[1..]);
    }
  }

  // ---- what load returns ----

  /** If fewer than half the counter range of stores began within the attempt, an unmoved even
      counter means that no store was in progress at any moment of it. */
  lemma UnmovedMeansClean<W>(c: Config, s: State<W>, x: Reader<W>)
    requires Inv(c, s) && ReaderInv(c, s, x) && x.Copying?
    requires s.begun - x.begun < c.half
    requires x.s1 == s.seqNo && x.s1 % 2 == 0
    ensures Clean(s, x) && !InProgress(s) && |s.history| == x.commits
  {
    var at := x.begun + x.commits - 1;
    WrapParity(at, c.half);
    assert at % 2 == 0;
    WrapSub(Unwrapped(s), at, 2 * c.half);
  }

  /** seqlock tests s1 for oddness first, so a copy under way always has an even s1. */
  ghost predicate TestedFirst<W>(c: Config, s: State<W>) {
    !c.combinedTest ==>
      forall r :: 0 <= r < |s.readers| && s.readers[r].Copying? ==> s.readers[r].s1 % 2 == 0
  }

  lemma {:induction false} RunTestsFirst<W>(c: Config, s: State<W>, events: seq<Event<W>>)
    requires c.Valid() && TestedFirst(c, s)
    ensures TestedFirst(c, Run(c, s, events))
    decreases |events|
  {
    if events != [] {
      RunTestsFirst(c, Step(c, s, events[0]), events[1..]);
    }
  }

  /** In every interleaving with one writer and any number of readers: when a load returns, and
      fewer than half the counter range of stores began since it loaded s1, what it returns is
      the committed value, the same from the load of s1 to the return: no store was in
      progress when s1 was loaded, none has begun since, none was committed. */
  lemma LoadReturnsCurrentValue<W>(c: Config, initial: Value<W>, readers: nat, events: seq<Event<W>>, r: nat)
    requires c.Valid() && |initial| == c.words && r < readers
    ensures var s := Run(c, Init(initial, readers), events);
            var t := Step(c, s, ReaderMoves(r));
            && |t.readers| == |s.readers| == readers
            && (s.readers[r].Copying? && t.readers[r].Returned? && s.begun - s.readers[r].begun < c.half ==>
                  && s.history != [] && t.readers[r].result == Latest(s) == s.value
                  && !InProgress(s)
                  && s.begun == s.readers[r].begun && |s.history| == s.readers[r].commits == s.begun + 1)
  {
    InitInv(c, initial, readers);
    RunKeepsInv(c, Init(initial, readers), events);
    RunTestsFirst(c, Init(initial, readers), events);
    RunKeepsReaders(c, Init(initial, readers), events);
    var s := Run(c, Init(initial, readers), events);
    var x := s.readers[r];
    if x.Copying? && Step(c, s, ReaderMoves(r)).readers[r].Returned? && s.begun - x.begun < c.half {
      UnmovedMeansClean(c, s, x);
      assert Latest(s)[..c.words] == Latest(s);
    }
  }

  lemma {:induction false} RunKeepsReaders<W>(c: Config, s: State<W>, events: seq<Event<W>>)
    requires c.Valid()
    ensures |Run(c, s, events).readers| == |s.readers|
    decreases |events|
  {
    if events != [] {
      RunKeepsReaders(c, Step(c, s, events[0]), events[1..]);
    }
  }

  /** update hands its function the last committed value whole, and commits what it returns: a
      read-modify-write that no other commit comes between. */
  lemma UpdateSeesLatest<W>(c: Config, s: State<W>, d: Value<W>)
    requires Inv(c, s) && s.writer.UpdateReading? && |s.writer.snapshot| == c.words && |d| == c.words
    ensures s.writer.snapshot == Latest(s)
    ensures var t := Step(c, s, Callback(d)); t.writer == Writing(d, s.writer.s, 0) && t.history == s.history
  {
    assert Latest(s)[..c.words] == Latest(s);
  }

  /** A commit appends exactly the value the store was given. */
  lemma CommitAppendsDesired<W>(c: Config, s: State<W>)
    requires Inv(c, s) && s.writer.Writing?
    ensures var t := WriterStep(c, s);
            if s.writer.i == c.words
            then t.history == s.history + [s.writer.desired] && t.value == s.writer.desired
            else t.history == s.history && InProgress(t)
  {
    if s.writer.i == c.words {
      assert s.value == s.writer.desired;
    }
  }

  // ---- readers finish once the writer is quiet ----

  predicate ByReader<W>(e: Event<W>) {
    e.ReaderMoves? || e.StartLoad?
  }

  /** The moves reader r can still need while no store is in progress. */
  function Work<W>(c: Config, s: State<W>, x: Reader<W>): int {
    match x
    case AttemptStart => c.words + 2
    case Copying(_, snap, _, _) => c.words - |snap| + 1 + if Clean(s, x) then 0 else c.words + 2
    case _ => 0
  }

  lemma QuietMove<W>(c: Config, s: State<W>, x: Reader<W>)
    requires Inv(c, s) && ReaderInv(c, s, x) && !InProgress(s) && (x.AttemptStart? || x.Copying?)
    ensures var y := ReaderStep(c, s, x);
            && Work(c, s, y) < Work(c, s, x)
            && (y.AttemptStart? || y.Copying? || y.Returned?)
            && (Undeceived(c, s, x) ==> Undeceived(c, s, y))
  {
    WrapParity(Unwrapped(s), c.half);
    if x.Copying? {
      assert Latest(s)[..c.words] == Latest(s);
      if Undeceived(c, s, x) && x.s1 == s.seqNo && x.s1 % 2 == 0 {
        UnmovedMeansClean(c, s, x);
      }
    }
  }

  /** What reader r has read cannot pass for something it is not: if it is copying, fewer than half
      the counter range of stores began since it loaded s1 and it has tested s1 or will; if it has
      returned, it was with the latest value. */
  ghost predicate Undeceived<W>(c: Config, s: State<W>, x: Reader<W>)
    requires s.history != []
  {
    match x
    case Copying(s1, _, begun, _) => s.begun - begun < c.half && (c.combinedTest || s1 % 2 == 0)
    case Returned(v, _, _) => v == Latest(s)
    case _ => true
  }

  function MovesOf<W>(events: seq<Event<W>>, r: nat): nat
    decreases |events|
  {
    if events == [] then 0 else (if events[0] == ReaderMoves(r) then 1 else 0) + MovesOf(events[1..], r)
  }

  lemma NoWorkLeft<W>(c: Config, s: State<W>, x: Reader<W>)
    requires Inv(c, s) && ReaderInv(c, s, x) && !x.ReaderIdle? && Work(c, s, x) <= 0
    ensures x.Returned? && (Undeceived(c, s, x) ==> x.result == Latest(s))
  {
  }

  /** A step of some reader leaves the lock alone and does not set reader r back; one of r itself
      brings it on. */
  lemma QuietStep<W>(c: Config, s: State<W>, e: Event<W>, r: nat)
    requires Inv(c, s) && !InProgress(s) && r < |s.readers| && !s.readers[r].ReaderIdle?
    requires ByReader(e) && e != StartLoad(r)
    ensures var t := Step(c, s, e);
            && Inv(c, t) && !InProgress(t) && t.history == s.history
            && |t.readers| == |s.readers| && !t.readers[r].ReaderIdle?
            && Work(c, t, t.readers[r]) <=
                 (if e == ReaderMoves(r) && !s.readers[r].Returned? then Work(c, s, s.readers[r]) - 1
                  else Work(c, s, s.readers[r]))
            && (s.readers[r].Returned? ==> t.readers[r] == s.readers[r] && Work(c, s, s.readers[r]) == 0)
            && (Undeceived(c, s, s.readers[r]) ==> Undeceived(c, t, t.readers[r]))
  {
    StepKeepsInv(c, s, e);
    if e == ReaderMoves(r) && !s.readers[r].Returned? {
      QuietMove(c, s, s.readers[r]);
    }
    hide Inv;
  }

  /** Once stores end, load ends: while only readers run, in any order, a bounded number of moves
      of a reader whose load is under way, however stores have disturbed it, make it return. */
  lemma {:induction false} LoadEndsOnceStoresEnd<W>(c: Config, s: State<W>, events: seq<Event<W>>, r: nat)
    requires Inv(c, s) && !InProgress(s) && r < |s.readers| && !s.readers[r].ReaderIdle?
    requires forall i :: 0 <= i < |events| ==> ByReader(events[i])
    requires MovesOf(events, r) >= Work(c, s, s.readers[r]) && StartLoad(r) !in events
    ensures var t := Run(c, s, events);
            |t.readers| == |s.readers| && t.readers[r].Returned? && t.history == s.history
    decreases |events|
  {
    if events == [] {
      NoWorkLeft(c, s, s.readers[r]);
    } else {
      hide Step, Inv, Work, InProgress;
      QuietStep(c, s, events[0], r);
      LoadEndsOnceStoresEnd(c, Step(c, s, events[0]), events[1..], r);
    }
  }

  /** ... and it returns the latest value, if it has not been deceived by the wrapping counter
      already. An attempt begun while no store is in progress takes words + 2 moves, one that a
      store has disturbed at most words + 2 more than it has left. */
  lemma {:induction false} AttemptAfterLastStoreSucceeds<W>(c: Config, s: State<W>, events: seq<Event<W>>, r: nat)
    requires Inv(c, s) && !InProgress(s) && r < |s.readers|
    requires forall i :: 0 <= i < |events| ==> ByReader(events[i])
    requires !s.readers[r].ReaderIdle? && Undeceived(c, s, s.readers[r])
    requires MovesOf(events, r) >= Work(c, s, s.readers[r]) && StartLoad(r) !in events
    ensures var t := Run(c, s, events);
            && |t.readers| == |s.readers| && t.history == s.history
            && t.readers[r].Returned? && t.readers[r].result == Latest(s)
    decreases |events|
  {
    if events == [] {
      NoWorkLeft(c, s, s.readers[r]);
    } else {
      hide Step, Inv, Work, InProgress, Undeceived;
      QuietStep(c, s, events[0], r);
      AttemptAfterLastStoreSucceeds(c, Step(c, s, events[0]), events[1..], r);
    }
  }

  // ---- why fewer than half the counter range of stores ----

  function Moves<W>(e: Event<W>, n: nat): seq<Event<W>> {
    if n == 0 then [] else [e] + Moves(e, n - 1)
  }

  function OneStore<W>(c: Config, d: Value<W>): seq<Event<W>> {
    [StartStore(d), WriterMoves] + Moves(WriterMoves, c.words + 1)
  }

  function Stores<W>(c: Config, d: Value<W>, n: nat): seq<Event<W>> {
    if n == 0 then [] else OneStore(c, d) + Stores(c, d, n - 1)
  }

  lemma {:induction false} RunConcat<W>(c: Config, s: State<W>, a: seq<Event<W>>, b: seq<Event<W>>)
    requires c.Valid()
    ensures Run(c, s, a + b) == Run(c, Run(c, s, a), b)
    decreases |a|
  {
    if a == [] {
      assert a + b == b;
    } else {
      assert (a + b)[0] == a[0] && (a + b)[1..] == a[1..] + b;
      RunConcat(c, Step(c, s, a[0]), a[1..], b);
    }
  }

  lemma {:induction false} WriteWords<W>(c: Config, s: State<W>)
    requires c.Valid() && s.writer.Writing?
    requires |s.value| == |s.writer.desired| == c.words && s.writer.i <= c.words
    requires s.value[..s.writer.i] == s.writer.desired[..s.writer.i]
    ensures Run(c, s, Moves(WriterMoves, c.words - s.writer.i + 1)) ==
            s.(value := s.writer.desired, seqNo := c.Next(s.writer.s, 2), writer := WriterIdle,
               history := s.history + [s.writer.desired])
    decreases c.words - s.writer.i
  {
    var d, i := s.writer.desired, s.writer.i;
    var t := WriterStep(c, s);
    var events: seq<Event<W>> := Moves(WriterMoves, c.words - i + 1);
    assert events[0] == WriterMoves && events[1..] == Moves(WriterMoves, c.words - i);
    assert Run(c, s, events) == Run(c, t, events[1..]);
    if i < c.words {
      assert t.value[..i + 1] == d[..i + 1];
      WriteWords(c, t);
    } else {
      assert s.value == d;
      assert Run(c, t, []) == t;
    }
  }

  lemma StoreAlone<W>(c: Config, s: State<W>, d: Value<W>)
    requires c.Valid() && s.writer.WriterIdle? && |s.value| == |d| == c.words
    ensures Run(c, s, OneStore(c, d)) ==
            s.(value := d, seqNo := c.Next(s.seqNo, 2), history := s.history + [d], begun := s.begun + 1)
  {
    var s2 := WriterStep(c, Step(c, s, StartStore(d)));
    RunConcat(c, s, [StartStore(d), WriterMoves], Moves(WriterMoves, c.words + 1));
    assert [StartStore(d), WriterMoves][1..] == [WriterMoves];
    assert Run(c, s, [StartStore(d), WriterMoves]) == Run(c, Step(c, s, StartStore(d)), [WriterMoves]) == s2;
    WriteWords(c, s2);
  }

  lemma NextOfNext(c: Config, q: nat, n: nat)
    requires c.Valid() && q < 2 * c.half
    ensures c.Next(q, 2) < 2 * c.half
    ensures c.Next(q, 2 * n) == if n == 0 then q else c.Next(c.Next(q, 2), 2 * (n - 1))
  {
    if n == 0 {
      ModUnique(q, 2 * c.half, 0, q);
    } else {
      WrapAdd(q + 2, 2 * (n - 1), 2 * c.half);
    }
  }

  lemma {:induction false} ManyStores<W>(c: Config, s: State<W>, d: Value<W>, n: nat)
    requires c.Valid() && s.writer.WriterIdle? && |s.value| == |d| == c.words
    requires s.seqNo < 2 * c.half
    ensures var t := Run(c, s, Stores(c, d, n));
            && t.seqNo == c.Next(s.seqNo, 2 * n) && t.begun == s.begun + n
            && t.readers == s.readers && t.writer == s.writer
            && (n > 0 ==> t.value == d) && (n == 0 ==> t == s)
            && (forall v <- t.history :: v in s.history || v == d)
    decreases n
  {
    hide OneStore, Step, Config.Next;
    NextOfNext(c, s.seqNo, n);
    if n == 0 {
    } else {
      var t := s.(value := d, seqNo := c.Next(s.seqNo, 2), history := s.history + [d], begun := s.begun + 1);
      RunConcat(c, s, OneStore(c, d), Stores(c, d, n - 1));
      StoreAlone(c, s, d);
      assert Run(c, s, Stores(c, d, n)) == Run(c, t, Stores(c, d, n - 1));
      hide Run, Stores;
      ManyStores(c, t, d, n - 1);
    }
  }

  /** A reader running alone copies the words it still lacks. */
  lemma {:induction false} CopyRest<W>(c: Config, s: State<W>)
    requires c.Valid() && |s.readers| == 1 && s.readers[0].Copying?
    requires |s.value| == c.words && |s.readers[0].snapshot| <= c.words
    ensures var x := s.readers[0];
            Run(c, s, Moves(ReaderMoves(0), c.words - |x.snapshot|)) ==
            s.(readers := [x.(snapshot := x.snapshot + s.value[|x.snapshot|..])])
    decreases c.words - |s.readers[0].snapshot|
  {
    var x := s.readers[0];
    if |x.snapshot| < c.words {
      var t := Step(c, s, ReaderMoves(0));
      var events: seq<Event<W>> := Moves(ReaderMoves(0), c.words - |x.snapshot|);
      assert events[0] == ReaderMoves(0) && events[1..] == Moves(ReaderMoves(0), c.words - |x.snapshot| - 1);
      assert Run(c, s, events) == Run(c, t, events[1..]);
      CopyRest(c, t);
      assert t.readers[0].snapshot + s.value[|x.snapshot| + 1..] == x.snapshot + s.value[|x.snapshot|..];
    } else {
      assert x.snapshot + s.value[|x.snapshot|..] == x.snapshot;
    }
  }

  /** A load copies one word, then exactly half the counter range of stores run: the counter is
      back where it was, and the load goes on with words of the new value. */
  function TearingRun<W>(c: Config, d: Value<W>): seq<Event<W>>
    requires c.words > 0
  {
    [StartLoad(0), ReaderMoves(0), ReaderMoves(0)] + Stores(c, d, c.half) + Moves(ReaderMoves(0), c.words - 1)
  }

  lemma FirstWord<W>(c: Config, a: Value<W>)
    requires c.Valid() && |a| == c.words && c.words > 0
    ensures Run(c, Init(a, 1), [StartLoad(0), ReaderMoves(0), ReaderMoves(0)]) ==
            Init(a, 1).(readers := [Copying(0, [a[0]], 0, 1)])
  {
    var s0 := Init(a, 1);
    var head: seq<Event<W>> := [StartLoad(0), ReaderMoves(0), ReaderMoves(0)];
    var s1 := Step(c, s0, StartLoad(0));
    assert s1 == s0.(readers := [AttemptStart]);
    var s2 := Step(c, s1, ReaderMoves(0));
    assert s2 == s0.(readers := [Copying(0, [], 0, 1)]);
    var s3 := Step(c, s2, ReaderMoves(0));
    assert [] + [a[0]] == [a[0]];
    assert s3 == s0.(readers := [Copying(0, [a[0]], 0, 1)]);
    assert head[1..] == [ReaderMoves(0), ReaderMoves(0)] && head[1..][1..] == [ReaderMoves(0)];
    assert Run(c, s0, head) == Run(c, s1, head[1..]) == Run(c, s2, [ReaderMoves(0)]) == Run(c, s3, []) == s3;
  }

  lemma HalfTheRangeTears<W>(c: Config, a: Value<W>, d: Value<W>)
    requires c.Valid() && |a| == |d| == c.words && c.words > 1
    ensures var s := Run(c, Init(a, 1), TearingRun(c, d));
            && |s.readers| == 1 && s.readers[0] == Copying(0, [a[0]] + d[1..], 0, 1)
            && Step(c, s, ReaderMoves(0)).readers == [Returned([a[0]] + d[1..], 0, 1)]
            && s.begun == c.half && (forall v <- s.history :: v == a || v == d)
  {
    var s0 := Init(a, 1);
    var head: seq<Event<W>> := [StartLoad(0), ReaderMoves(0), ReaderMoves(0)];
    FirstWord(c, a);
    RunConcat(c, s0, head, Stores(c, d, c.half));
    RunConcat(c, s0, head + Stores(c, d, c.half), Moves(ReaderMoves(0), c.words - 1));
    var s3 := Run(c, s0, head);
    ManyStores(c, s3, d, c.half);
    ModUnique(2 * c.half, 2 * c.half, 1, 0);
    CopyRest(c, Run(c, s3, Stores(c, d, c.half)));
  }

  /** Every load during which at most `bound` stores began returned a committed value. */
  ghost predicate SafeUpTo<W(!new)>(c: Config, initial: Value<W>, bound: nat)
    requires c.Valid()
  {
    forall events: seq<Event<W>> ::
      var s := Run(c, Init(initial, 1), events);
      var t := Step(c, s, ReaderMoves(0));
      && |s.readers| == |t.readers| == 1
      && (s.readers[0].Copying? && t.readers[0].Returned? && s.begun - s.readers[0].begun <= bound ==>
            t.readers[0].result in s.history)
  }

  /** The limit is exact: with two words or more, loads are safe for a number of stores per
      attempt if and only if that number is below half the counter range. */
  lemma SafeExactlyBelowHalf<W(!new)>(c: Config, a: W, b: W, bound: nat)
    requires c.Valid() && c.words > 1 && a != b
    ensures SafeUpTo(c, seq(c.words, _ => a), bound) <==> bound < c.half
  {
    var initial, other := seq(c.words, _ => a), seq(c.words, _ => b);
    if bound < c.half {
      forall events: seq<Event<W>>
        ensures var s := Run(c, Init(initial, 1), events);
                var t := Step(c, s, ReaderMoves(0));
                && |s.readers| == |t.readers| == 1
                && (s.readers[0].Copying? && t.readers[0].Returned? && s.begun - s.readers[0].begun <= bound ==>
                      t.readers[0].result in s.history)
      {
        LoadReturnsCurrentValue(c, initial, 1, events, 0);
      }
    } else {
      TearingRunBreaks(c, initial, other, bound);
    }
  }

  lemma TearingRunBreaks<W(!new)>(c: Config, a: Value<W>, d: Value<W>, bound: nat)
    requires c.Valid() && |a| == |d| == c.words && c.words > 1 && c.half <= bound
    requires a[0] != d[0] && a[1] != d[1]
    ensures !SafeUpTo(c, a, bound)
  {
    HalfTheRangeTears(c, a, d);
    var s := Run(c, Init(a, 1), TearingRun(c, d));
    var t := Step(c, s, ReaderMoves(0));
    assert t.readers[0].result[0] == a[0] && t.readers[0].result[1] == d[1];
    assert t.readers[0].result !in s.history;
  }
}
