/**
 The double buffer: a writer that fills the slot not in front and then publishes it, and any
 number of readers that copy the front slot, as a machine whose steps are the loads and stores
 of `front_` and the copying of one word.
 */
module DoubleBuffer {

  type Value<W> = seq<W>

  datatype Writer<W> = WriterIdle | Writing(desired: Value<W>, back: nat, i: nat)

  /** `commits` is the number of committed values when the load read front_. */
  datatype Reader<W> =
    | ReaderIdle
    | LoadCalled
    | Copying(front: nat, snapshot: Value<W>, commits: nat)
    | Returned(result: Value<W>, commits: nat)

  /** `history` lists the committed values, the initial one first; `version[j]` is the position
      in it of the value slot j holds or, while it is being written, held. */
  datatype State<W> = State(
    buf: seq<Value<W>>,
    front: nat,
    writer: Writer<W>,
    readers: seq<Reader<W>>,
    history: seq<Value<W>>,
    version: seq<nat>)

  datatype Event<W> = StartStore(desired: Value<W>) | WriterMoves | StartLoad(r: nat) | ReaderMoves(r: nat)

  function Init<W>(initial: Value<W>, readers: nat): State<W> {
    State([initial, initial], 0, WriterIdle, seq(readers, _ => ReaderIdle), [initial], [0, 0])
  }

  ghost predicate Shape<W>(words: nat, s: State<W>) {
    && |s.buf| == |s.version| == 2 && s.front < 2
    && (forall j :: 0 <= j < 2 ==> |s.buf[j]| == words)
    && s.history != []
    && (s.writer.Writing? ==> |s.writer.desired| == words && s.writer.i <= words && s.writer.back == 1 - s.front)
    && (forall r :: 0 <= r < |s.readers| && s.readers[r].Copying? ==> s.readers[r].front < 2)
  }

  function WriterStep<W>(words: nat, s: State<W>): State<W>
    requires Shape(words, s)
  {
    match s.writer
    case WriterIdle => s
    case Writing(d, back, i) =>
      if i < words then
        s.(buf := s.buf[back := s.buf[back][i := d[i]]], writer := Writing(d, back, i + 1))
      else
        s.(front := back, writer := WriterIdle, history := s.history + [s.buf[back]],
           version := s.version[back := |s.history|])
  }

  function ReaderStep<W>(words: nat, s: State<W>, x: Reader<W>): Reader<W>
    requires Shape(words, s)
    requires x.Copying? ==> x.front < 2
  {
    match x
    case LoadCalled => Copying(s.front, [], |s.history|)
    case Copying(front, snap, commits) =>
      if |snap| < words then Copying(front, snap + [s.buf[front][|snap|]], commits)
      else Returned(snap, commits)
    case _ => x
  }

  /** StartStore includes the store's load of front_, which only the writer changes. */
  function Step<W>(words: nat, s: State<W>, e: Event<W>): State<W>
    requires Shape(words, s)
  {
    match e
    case StartStore(d) =>
      if s.writer.WriterIdle? && |d| == words then s.(writer := Writing(d, 1 - s.front, 0)) else s
    case WriterMoves => WriterStep(words, s)
    case StartLoad(r) =>
      if r < |s.readers| && !s.readers[r].Copying? then s.(readers := s.readers[r := LoadCalled]) else s
    case ReaderMoves(r) =>
      if r < |s.readers| then s.(readers := s.readers[r := ReaderStep(words, s, s.readers[r])]) else s
  }

  lemma StepKeepsShape<W>(words: nat, s: State<W>, e: Event<W>)
    requires Shape(words, s)
    ensures Shape(words, Step(words, s, e))
  {
  }

  function Run<W>(words: nat, s: State<W>, events: seq<Event<W>>): (t: State<W>)
    requires Shape(words, s)
    ensures Shape(words, t)
    decreases |events|
  {
    if events == [] then s
    else
      StepKeepsShape(words, s, events[0]);
      Run(words, Step(words, s, events[0]), events[1..])
  }

  // ---- the invariant ----

  /** The usage condition, for a load that found `commits` committed values: at most one commit
      since it read front_, and no store begun after that commit. */
  predicate Quiet<W>(s: State<W>, commits: nat) {
    |s.history| == commits || (|s.history| == commits + 1 && s.writer.WriterIdle?)
  }

  /** The slot a load copies still holds the version the load began with, and is not being
      overwritten. */
  predicate Untouched<W>(s: State<W>, front: nat, commits: nat) {
    front < |s.version| && s.version[front] == commits - 1 && (s.writer.Writing? ==> s.writer.back != front)
  }

  ghost predicate SlotInv<W>(words: nat, s: State<W>)
    requires Shape(words, s)
  {
    && s.version[s.front] == |s.history| - 1
    && s.version[1 - s.front] == (if |s.history| == 1 then 0 else |s.history| - 2)
    && s.buf[s.front] == s.history[|s.history| - 1]
    && (s.writer.WriterIdle? ==> s.buf[1 - s.front] == s.history[s.version[1 - s.front]])
    && (s.writer.Writing? ==> s.buf[1 - s.front][..s.writer.i] == s.writer.desired[..s.writer.i])
  }

  ghost predicate ReaderInv<W>(words: nat, s: State<W>, x: Reader<W>)
    requires Shape(words, s)
  {
    x.Copying? ==>
      && x.front < 2 && 0 < x.commits <= |s.history| && |x.snapshot| <= words
      && |s.history[x.commits - 1]| == words
      && (x.front == s.front <==> (|s.history| - x.commits) % 2 == 0)
      && (Quiet(s, x.commits) ==> x.snapshot == s.history[x.commits - 1][..|x.snapshot|])
  }

  ghost predicate Inv<W>(words: nat, s: State<W>) {
    && Shape(words, s)
    && SlotInv(words, s)
    && (forall r :: 0 <= r < |s.readers| ==> ReaderInv(words, s, s.readers[r]))
  }

  lemma InitInv<W>(initial: Value<W>, readers: nat)
    ensures Inv(|initial|, Init(initial, readers))
  {
  }

  /** The slot a load copies is out of the writer's reach exactly under the usage condition. */
  lemma UntouchedExactlyWhenQuiet<W>(words: nat, s: State<W>, x: Reader<W>)
    requires Inv(words, s) && x.Copying? && ReaderInv(words, s, x)
    ensures Untouched(s, x.front, x.commits) <==> Quiet(s, x.commits)
    ensures Quiet(s, x.commits) ==> s.buf[x.front] == s.history[x.commits - 1]
  {
  }

  lemma OneWordMore<W>(b: Value<W>, d: Value<W>, i: nat)
    requires i < |b| == |d| && b[..i] == d[..i]
    ensures b[i := d[i]][..i + 1] == d[..i + 1]
  {
    forall j | 0 <= j < i + 1 ensures b[i := d[i]][j] == d[j] {
      assert j < i ==> b[..i][j] == d[..i][j];
    }
  }

  lemma WriterKeepsInv<W>(words: nat, s: State<W>)
    requires Inv(words, s)
    ensures Inv(words, WriterStep(words, s))
  {
    var t := WriterStep(words, s);
    if s.writer.Writing? {
      var d, i, back := s.writer.desired, s.writer.i, s.writer.back;
      if i < words {
        OneWordMore(s.buf[back], d, i);
        assert SlotInv(words, t);
      } else {
        assert s.buf[back] == s.buf[back][..words] && d == d[..words];
        assert SlotInv(words, t);
      }
      forall r | 0 <= r < |t.readers| ensures ReaderInv(words, t, t.readers[r]) {
        assert ReaderInv(words, s, s.readers[r]);
      }
    }
  }

  lemma ReaderKeepsInv<W>(words: nat, s: State<W>, x: Reader<W>)
    requires Inv(words, s) && ReaderInv(words, s, x)
    ensures ReaderInv(words, s, ReaderStep(words, s, x))
  {
    if x.Copying? && |x.snapshot| < words && Quiet(s, x.commits) {
      UntouchedExactlyWhenQuiet(words, s, x);
      var v, n := s.history[x.commits - 1], |x.snapshot|;
      assert x.snapshot + [v[n]] == v[..n + 1];
    }
  }

  lemma StepKeepsInv<W>(words: nat, s: State<W>, e: Event<W>)
    requires Inv(words, s)
    ensures Inv(words, Step(words, s, e))
  {
    match e
    case WriterMoves => WriterKeepsInv(words, s);
    case ReaderMoves(r) =>
      if r < |s.readers| {
        ReaderKeepsInv(words, s, s.readers[r]);
        hide ReaderStep;
        OtherReadersKeepInv(words, s, r, ReaderStep(words, s, s.readers[r]));
      }
    case StartLoad(r) =>
      if r < |s.readers| {
        OtherReadersKeepInv(words, s, r, LoadCalled);
      }
    case StartStore(_) =>
  }

  /** A step of one reader concerns no other. */
  lemma OtherReadersKeepInv<W>(words: nat, s: State<W>, r: nat, x: Reader<W>)
    requires Inv(words, s) && r < |s.readers| && (x.Copying? ==> x.front < 2) && ReaderInv(words, s, x)
    ensures Inv(words, s.(readers := s.readers[r := x]))
  {
    var t := s.(readers := s.readers[r := x]);
    forall i | 0 <= i < |t.readers| ensures ReaderInv(words, t, t.readers[i]) {
      assert i != r ==> ReaderInv(words, s, s.readers[i]);
    }
  }

  lemma {:induction false} RunKeepsInv<W>(words: nat, s: State<W>, events: seq<Event<W>>)
    requires Inv(words, s)
    ensures Inv(words, Run(words, s, events))
    decreases |events|
  {
    if events != [] {
      StepKeepsInv(words, s, events[0]);
      RunKeepsInv(words, Step(words, s, events[0]), events[1..]);
    }
  }

  /** In every interleaving of word-wise copies: a load that returns under the usage condition
      returns, whole, the value that was current when it read front_; and for as long as the
      condition holds, and only then, the writer leaves the slot it copies alone. */
  lemma LoadReturnsCurrentValue<W>(initial: Value<W>, readers: nat, events: seq<Event<W>>, r: nat)
    ensures Shape(|initial|, Init(initial, readers))
    ensures var s := Run(|initial|, Init(initial, readers), events);
            && Shape(|initial|, s)
            && (r < |s.readers| && s.readers[r].Copying? ==>
                  var x := s.readers[r];
                  var y := ReaderStep(|initial|, s, x);
                  && 0 < x.commits <= |s.history|
                  && (Untouched(s, x.front, x.commits) <==> Quiet(s, x.commits))
                  && (y.Returned? && Quiet(s, x.commits) ==> y.result == s.history[x.commits - 1]))
  {
    var words := |initial|;
    InitInv(initial, readers);
    RunKeepsInv(words, Init(initial, readers), events);
    var s := Run(words, Init(initial, readers), events);
    if r < |s.readers| && s.readers[r].Copying? {
      var x := s.readers[r];
      UntouchedExactlyWhenQuiet(words, s, x);
      assert s.history[x.commits - 1][..words] == s.history[x.commits - 1];
    }
  }

  // ---- how many stores a load bears ----

  function Moves<W>(e: Event<W>, n: nat): seq<Event<W>> {
    if n == 0 then [] else [e] + Moves(e, n - 1)
  }

  /** A store up to, but not including, its commit. */
  function Fill<W>(words: nat, d: Value<W>): seq<Event<W>> {
    [StartStore(d)] + Moves(WriterMoves, words)
  }

  /** The load reads front_ and k words, a store runs whole, and the next store fills its slot, the
      one being copied, without committing yet; then the load copies the other words. */
  function OvertakingRun<W>(words: nat, k: nat, b: Value<W>, d: Value<W>): seq<Event<W>>
    requires k <= words
  {
    ([StartLoad(0), ReaderMoves(0)] + Moves(ReaderMoves(0), k))
    + ((Fill(words, b) + [WriterMoves]) + Fill(words, d))
    + Moves(ReaderMoves(0), words - k)
  }

  lemma {:induction false} RunConcat<W>(words: nat, s: State<W>, a: seq<Event<W>>, b: seq<Event<W>>)
    requires Shape(words, s)
    ensures Run(words, s, a + b) == Run(words, Run(words, s, a), b)
    decreases |a|
  {
    if a == [] {
      assert a + b == b;
    } else {
      assert (a + b)[0] == a[0] && (a + b)[1..] == a[1..] + b;
      RunConcat(words, Step(words, s, a[0]), a[1..], b);
    }
  }

  lemma RunFirst<W>(words: nat, s: State<W>, e: Event<W>, rest: seq<Event<W>>)
    requires Shape(words, s)
    ensures Shape(words, Step(words, s, e))
    ensures Run(words, s, [e] + rest) == Run(words, Step(words, s, e), rest)
  {
    StepKeepsShape(words, s, e);
    hide Step, Shape;
    assert ([e] + rest)[1..] == rest;
  }

  /** The writer running alone writes the words it has left. */
  lemma {:induction false} WriteRest<W>(words: nat, s: State<W>)
    requires Shape(words, s) && s.writer.Writing?
    requires s.buf[s.writer.back][..s.writer.i] == s.writer.desired[..s.writer.i]
    ensures Run(words, s, Moves(WriterMoves, words - s.writer.i)) ==
            s.(buf := s.buf[s.writer.back := s.writer.desired], writer := s.writer.(i := words))
    decreases words - s.writer.i
  {
    var Writing(d, back, i) := s.writer;
    if i < words {
      RunFirst(words, s, WriterMoves, Moves(WriterMoves, words - i - 1));
      OneWordMore(s.buf[back], d, i);
      var t := Step(words, s, WriterMoves);
      assert t == s.(buf := s.buf[back := s.buf[back][i := d[i]]], writer := Writing(d, back, i + 1));
      hide Step;
      WriteRest(words, t);
      assert t.buf[back := d] == s.buf[back := d];
    } else {
      assert s.buf[back] == s.buf[back][..i] == d[..i] == d;
      assert s.buf[back := d] == s.buf;
    }
  }

  lemma FillAlone<W>(words: nat, s: State<W>, d: Value<W>)
    requires Shape(words, s) && s.writer.WriterIdle? && |d| == words
    ensures Run(words, s, Fill(words, d)) ==
            s.(buf := s.buf[1 - s.front := d], writer := Writing(d, 1 - s.front, words))
  {
    RunFirst(words, s, StartStore(d), Moves(WriterMoves, words));
    WriteRest(words, s.(writer := Writing(d, 1 - s.front, 0)));
  }

  /** The first reader running alone copies n more words. */
  lemma {:induction false} CopyMore<W>(words: nat, s: State<W>, n: nat)
    requires Shape(words, s) && |s.readers| == 1 && s.readers[0].Copying?
    requires |s.readers[0].snapshot| + n <= words
    ensures var x := s.readers[0];
            var m := |x.snapshot|;
            Run(words, s, Moves(ReaderMoves(0), n)) ==
            s.(readers := [x.(snapshot := x.snapshot + s.buf[x.front][m..m + n])])
    decreases n
  {
    var x := s.readers[0];
    var m, v := |x.snapshot|, s.buf[x.front];
    if n == 0 {
      assert x.snapshot + v[m..m] == x.snapshot;
      assert s.readers == [x];
    } else {
      RunFirst(words, s, ReaderMoves(0), Moves(ReaderMoves(0), n - 1));
      var t := Step(words, s, ReaderMoves(0));
      assert t == s.(readers := [x.(snapshot := x.snapshot + [v[m]])]);
      hide Step;
      CopyMore(words, t, n - 1);
      assert x.snapshot + [v[m]] + v[m + 1..m + n] == x.snapshot + v[m..m + n];
    }
  }

  lemma LoadBegins<W>(words: nat, a: Value<W>, k: nat)
    requires |a| == words && k <= words
    ensures Run(words, Init(a, 1), [StartLoad(0), ReaderMoves(0)] + Moves(ReaderMoves(0), k)) ==
            Init(a, 1).(readers := [Copying(0, a[..k], 1)])
  {
    var s0 := Init(a, 1);
    var rest: seq<Event<W>> := Moves(ReaderMoves(0), k);
    RunFirst(words, s0, StartLoad(0), [ReaderMoves(0)] + rest);
    var s1 := s0.(readers := [LoadCalled]);
    assert Step(words, s0, StartLoad(0)) == s1;
    RunFirst(words, s1, ReaderMoves(0), rest);
    var s2 := s0.(readers := [Copying(0, [], 1)]);
    assert Step(words, s1, ReaderMoves(0)) == s2;
    CopyMore(words, s2, k);
    assert [StartLoad(0), ReaderMoves(0)] + rest == [StartLoad(0)] + ([ReaderMoves(0)] + rest);
    assert [] + a[0..k] == a[..k];
  }

  /** After those events the load has copied words of the first value and of one not committed. */
  lemma Overtaken<W>(words: nat, k: nat, a: Value<W>, b: Value<W>, d: Value<W>)
    requires |a| == |b| == |d| == words && k <= words
    ensures Run(words, Init(a, 1), OvertakingRun(words, k, b, d)) ==
            State([d, b], 1, Writing(d, 0, words), [Copying(0, a[..k] + d[k..], 1)], [a, b], [0, 1])
  {
    hide Run, Fill, Moves;
    var begin: seq<Event<W>> := [StartLoad(0), ReaderMoves(0)] + Moves(ReaderMoves(0), k);
    var stores := (Fill(words, b) + [WriterMoves]) + Fill(words, d);
    RunConcat(words, Init(a, 1), begin + stores, Moves(ReaderMoves(0), words - k));
    RunConcat(words, Init(a, 1), begin, stores);
    LoadBegins(words, a, k);
    var s := Init(a, 1).(readers := [Copying(0, a[..k], 1)]);
    RunConcat(words, s, Fill(words, b) + [WriterMoves], Fill(words, d));
    RunConcat(words, s, Fill(words, b), [WriterMoves]);
    FillAlone(words, s, b);
    var filled := State([a, b], 0, Writing(b, 1, words), s.readers, [a], [0, 0]);
    var stored := State([a, b], 1, WriterIdle, s.readers, [a, b], [0, 1]);
    assert s.buf[1 := b] == [a, b];
    OneStep(words, filled, WriterMoves, stored);
    FillAlone(words, stored, d);
    var t := State([d, b], 1, Writing(d, 0, words), s.readers, [a, b], [0, 1]);
    assert stored.buf[0 := d] == [d, b];
    CopyMore(words, t, words - k);
    assert d[k..k + (words - k)] == d[k..];
  }

  lemma OneStep<W>(words: nat, s: State<W>, e: Event<W>, t: State<W>)
    requires Shape(words, s) && Step(words, s, e) == t
    ensures Run(words, s, [e]) == t
  {
    RunFirst(words, s, e, []);
    assert [e] + [] == [e];
  }

  /** "The writer must not commit more than once during a single load" is not enough: in this run
      exactly one commit falls inside the load, and its next step returns a torn value. */
  lemma OneCommitCanTear<W>(words: nat, a: W, b: W, d: W)
    requires a != d && words > 1
    ensures var (va, vb, vd) := (seq(words, _ => a), seq(words, _ => b), seq(words, _ => d));
            Shape(words, Init(va, 1)) &&
            var s := Run(words, Init(va, 1), OvertakingRun(words, 1, vb, vd));
            && |s.history| == 2 && |s.readers| == 1 && s.readers[0].Copying? && s.readers[0].front < 2
            && s.readers[0].commits == 1 && Overlap(s, 1) == 2
            && var y := ReaderStep(words, s, s.readers[0]);
               && y.Returned? && y.result[0] == a && y.result[1] == d
               && y.result !in s.history + [vd]
  {
    Overtaken(words, 1, seq(words, _ => a), seq(words, _ => b), seq(words, _ => d));
    var y := seq(words, _ => a)[..1] + seq(words, _ => d)[1..];
    assert y[0] == a && y[1] == d;
    hide Run, OvertakingRun;
    Mixed(y, a, b, d);
  }

  /** A value that begins with a and goes on with d is none of the constant ones, unless a == d. */
  lemma Mixed<W>(y: Value<W>, a: W, b: W, d: W)
    requires |y| > 1 && y[0] == a && y[1] == d && a != d
    ensures y !in [seq(|y|, _ => a), seq(|y|, _ => b)] + [seq(|y|, _ => d)]
  {
    var va, vb, vd := seq(|y|, _ => a), seq(|y|, _ => b), seq(|y|, _ => d);
    assert va[1] == a && vd[0] == d && vb[0] == b && vb[1] == b;
  }

  /** The stores begun since, or in progress when, a load that found `commits` committed values
      read front_. */
  function Overlap<W>(s: State<W>, commits: nat): int {
    |s.history| - commits + if s.writer.Writing? then 1 else 0
  }

  /** The usage condition is that at most one store overlaps the load. */
  lemma QuietIsOneStore<W>(s: State<W>, commits: nat)
    requires commits <= |s.history|
    ensures Quiet(s, commits) <==> Overlap(s, commits) <= 1
  {
  }

  /** Every load that at most `bound` stores overlap returns the value current when it read front_. */
  ghost predicate SafeUpTo<W(!new)>(initial: Value<W>, bound: int)
  {
    forall events: seq<Event<W>> :: SafeAfter(initial, bound, events)
  }

  ghost predicate SafeAfter<W>(initial: Value<W>, bound: int, events: seq<Event<W>>)
  {
    InitInv(initial, 1);
    var s := Run(|initial|, Init(initial, 1), events);
    && |s.readers| == 1
    && (s.readers[0].Copying? && Overlap(s, s.readers[0].commits) <= bound ==>
          var y := ReaderStep(|initial|, s, s.readers[0]);
          && 0 < s.readers[0].commits <= |s.history|
          && (y.Returned? ==> y.result == s.history[s.readers[0].commits - 1]))
  }

  /** The limit is exact: values of one word or more are safe for a number of overlapping stores
      if and only if that number is at most one. */
  lemma SafeExactlyForOneStore<W(!new)>(words: nat, a: W, d: W, bound: int)
    requires words > 0 && a != d
    ensures SafeUpTo(seq(words, _ => a), bound) <==> bound <= 1
  {
    var va, vd := seq(words, _ => a), seq(words, _ => d);
    if bound <= 1 {
      forall events: seq<Event<W>> ensures SafeAfter(va, bound, events) {
        OneStoreIsSafe(va, bound, events);
      }
    } else {
      assert va[0] == a && vd[0] == d;
      TwoStoresAreNot(words, va, vd, bound);
    }
  }

  lemma OneStoreIsSafe<W>(initial: Value<W>, bound: int, events: seq<Event<W>>)
    requires bound <= 1
    ensures SafeAfter(initial, bound, events)
  {
    LoadReturnsCurrentValue(initial, 1, events, 0);
    var s := Run(|initial|, Init(initial, 1), events);
    RunKeepsReaders(|initial|, Init(initial, 1), events);
    if s.readers[0].Copying? {
      hide Run;
      QuietIsOneStore(s, s.readers[0].commits);
    }
  }

  lemma {:induction false} RunKeepsReaders<W>(words: nat, s: State<W>, events: seq<Event<W>>)
    requires Shape(words, s)
    ensures |Run(words, s, events).readers| == |s.readers|
    decreases |events|
  {
    if events != [] {
      RunKeepsReaders(words, Step(words, s, events[0]), events[1..]);
    }
  }

  lemma TwoStoresAreNot<W(!new)>(words: nat, a: Value<W>, d: Value<W>, bound: int)
    requires |a| == |d| == words > 0 && a != d && bound >= 2
    ensures !SafeUpTo(a, bound)
  {
    Overtaken(words, 0, a, d, d);
    assert a[..0] + d[0..] == d;
    var run := OvertakingRun(words, 0, d, d);
    hide Run, OvertakingRun;
    assert !SafeAfter(a, bound, run);
  }

  // ---- the object ----

  /** The buffer object, with its methods run without interruption. */
  class Buffer<W> {
    const words: nat
    const buf: array<Value<W>>
    var front: nat
    ghost var history: seq<Value<W>>
    ghost var version: seq<nat>

    ghost function AsState(): State<W>
      reads this, buf
    {
      State(buf[..], front, WriterIdle, [], history, version)
    }

    ghost predicate Valid()
      reads this, buf
    {
      Inv(words, AsState())
    }

    constructor (initial: Value<W>)
      ensures Valid() && fresh(buf) && words == |initial| && history == [initial]
    {
      words := |initial|;
      buf := new Value<W>[2](_ => initial);
      front := 0;
      history, version := [initial], [0, 0];
      new;
      assert buf[..] == [initial, initial];
      InitInv(initial, 0);
    }

    method Store(value: Value<W>)
      requires Valid() && |value| == words
      modifies this, buf
      ensures Valid()
      ensures history == old(history) + [value]
      ensures buf[old(front)] == old(buf[front])
    {
      ghost var filled := AsState().(writer := Writing(value, 1 - front, words), buf := AsState().buf[1 - front := value]);
      WriterKeepsInv(words, filled);
      var back := 1 - front;
      buf[back] := value;
      assert buf[..] == filled.buf;
      history, version := history + [value], version[back := |history|];
      front := back;
    }

    method Load() returns (value: Value<W>)
      requires Valid()
      ensures value == history[|history| - 1]
    {
      var f := front;
      return buf[f];
    }
  }
}
