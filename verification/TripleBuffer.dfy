/**
 The triple buffer: three slots and an atomic exchange of slot indices between one writer and
 one reader, as a machine whose steps are the exchanges and the copying of one word.
 */
module TripleBuffer {

  type Value<W> = seq<W>

  datatype Writer<W> = WriterIdle | Writing(desired: Value<W>, i: nat)

  /** `exchanged` is what the reader's exchange found: the version it received, and how many
      versions, and loads since the last commit, there were at that moment. */
  datatype Exchange = Exchange(version: nat, latest: nat, loadsBefore: nat, gaveUpBefore: nat)

  datatype Reader<W> =
    | ReaderIdle
    | LoadCalled
    | Copying(snapshot: Value<W>, x: Exchange)
    | Returned(result: Value<W>, x: Exchange)

  /** `history` lists the committed values, the initial one as version 0; `version[j]` is the
      version slot j holds or, for the slot being written, held. `loads` counts the loads since
      the last commit (or the beginning), and `gaveUp` is the version of the slot the last load
      put back. */
  datatype State<W> = State(
    buf: seq<Value<W>>,
    shared: nat,
    write: nat,
    read: nat,
    writer: Writer<W>,
    reader: Reader<W>,
    history: seq<Value<W>>,
    version: seq<nat>,
    loads: nat,
    gaveUp: nat)

  datatype Event<W> = StartStore(desired: Value<W>) | WriterMoves | StartLoad | ReaderMoves

  function Init<W>(initial: Value<W>): State<W> {
    State([initial, initial, initial], 0, 1, 2, WriterIdle, ReaderIdle, [initial], [0, 0, 0], 0, 0)
  }

  ghost predicate Shape<W>(words: nat, s: State<W>) {
    && |s.buf| == |s.version| == 3
    && s.shared < 3 && s.write < 3 && s.read < 3
    && (forall j :: 0 <= j < 3 ==> |s.buf[j]| == words)
    && (s.writer.Writing? ==> |s.writer.desired| == words && s.writer.i <= words)
    && s.history != []
  }

  function WriterStep<W>(words: nat, s: State<W>): State<W>
    requires Shape(words, s)
  {
    match s.writer
    case WriterIdle => s
    case Writing(d, i) =>
      if i < words then
        s.(buf := s.buf[s.write := s.buf[s.write][i := d[i]]], writer := Writing(d, i + 1))
      else
        s.(shared := s.write, write := s.shared, writer := WriterIdle,
           history := s.history + [s.buf[s.write]], version := s.version[s.write := |s.history|], loads := 0)
  }

  function ReaderStep<W>(words: nat, s: State<W>): State<W>
    requires Shape(words, s)
  {
    match s.reader
    case ReaderIdle => s
    case Returned(_, _) => s
    case LoadCalled =>
      s.(read := s.shared, shared := s.read, loads := s.loads + 1, gaveUp := s.version[s.read],
         reader := Copying([], Exchange(s.version[s.shared], |s.history| - 1, s.loads, s.gaveUp)))
    case Copying(snap, x) =>
      if |snap| < words then s.(reader := Copying(snap + [s.buf[s.read][|snap|]], x))
      else s.(reader := Returned(snap, x))
  }

  function Step<W>(words: nat, s: State<W>, e: Event<W>): State<W>
    requires Shape(words, s)
  {
    match e
    case StartStore(d) => if s.writer.WriterIdle? && |d| == words then s.(writer := Writing(d, 0)) else s
    case WriterMoves => WriterStep(words, s)
    case StartLoad =>
      if s.reader.ReaderIdle? || s.reader.Returned? then s.(reader := LoadCalled) else s
    case ReaderMoves => ReaderStep(words, s)
  }

  lemma StepKeepsShape<W>(words: nat, s: State<W>, e: Event<W>)
    requires Shape(words, s)
    ensures Shape(words, Step(words, s, e))
  {
  }

  function Run<W>(words: nat, s: State<W>, events: seq<Event<W>>): State<W>
    requires Shape(words, s)
    decreases |events|
  {
    if events == [] then s
    else
      StepKeepsShape(words, s, events[0]);
      Run(words, Step(words, s, events[0]), events[1..])
  }

  // ---- the invariant ----

  /** The three indices are the three slots, one each. */
  predicate Permutation<W>(s: State<W>) {
    s.shared != s.write && s.write != s.read && s.read != s.shared
  }

  function LatestVersion<W>(s: State<W>): int {
    |s.history| - 1
  }

  /** The slot holding the latest version, once there has been a commit: loads swap it back and
      forth between the reader and the shared index. */
  function LatestSlot<W>(s: State<W>): nat {
    if s.loads % 2 == 0 then s.shared else s.read
  }

  ghost predicate SlotInv<W>(words: nat, s: State<W>)
    requires Shape(words, s)
  {
    && (forall j :: 0 <= j < 3 ==> s.version[j] < |s.history|)
    && (forall j :: 0 <= j < 3 && (j == s.write ==> !s.writer.Writing?) ==>
          s.buf[j] == s.history[s.version[j]])
    && (s.writer.Writing? ==> s.buf[s.write][..s.writer.i] == s.writer.desired[..s.writer.i])
    && (LatestVersion(s) > 0 ==>
          forall j :: 0 <= j < 3 ==> (s.version[j] == LatestVersion(s) <==> j == LatestSlot(s)))
    && (s.loads > 0 ==> s.version[s.shared] == s.gaveUp)
  }

  ghost predicate ReaderInv<W>(words: nat, s: State<W>)
    requires Shape(words, s)
  {
    match s.reader
    case Copying(snap, x) =>
      && x.version == s.version[s.read] && x.version < |s.history|
      && |snap| <= words && |s.history[x.version]| == words && snap == s.history[x.version][..|snap|]
      && ExchangeOk(x)
    case Returned(r, x) => x.version < |s.history| && r == s.history[x.version] && ExchangeOk(x)
    case _ => true
  }

  /** What an exchange receives: the latest version exactly when an even number of loads, such as
      none, has run since it was committed; after any load, what that load gave up. */
  predicate ExchangeOk(x: Exchange) {
    && x.version <= x.latest
    && (x.version == x.latest <==> x.latest == 0 || x.loadsBefore % 2 == 0)
    && (x.loadsBefore > 0 ==> x.version == x.gaveUpBefore)
  }

  ghost predicate Inv<W>(words: nat, s: State<W>) {
    Shape(words, s) && Permutation(s) && SlotInv(words, s) && ReaderInv(words, s)
  }

  lemma InitInv<W>(words: nat, initial: Value<W>)
    requires |initial| == words
    ensures Inv(words, Init(initial))
  {
  }

  lemma CommitKeepsInv<W>(words: nat, s: State<W>)
    requires Inv(words, s) && s.writer.Writing? && s.writer.i == words
    ensures Inv(words, WriterStep(words, s))
    ensures WriterStep(words, s).history == s.history + [s.writer.desired]
  {
    assert s.buf[s.write][..words] == s.buf[s.write] && s.writer.desired[..words] == s.writer.desired;
  }

  lemma WriterKeepsInv<W>(words: nat, s: State<W>)
    requires Inv(words, s)
    ensures Inv(words, WriterStep(words, s))
  {
    if s.writer.Writing? {
      if s.writer.i == words {
        CommitKeepsInv(words, s);
      } else {
        var i, d := s.writer.i, s.writer.desired;
        assert s.buf[s.write][i := d[i]][..i + 1] == d[..i + 1];
      }
    }
  }

  lemma ReaderKeepsInv<W>(words: nat, s: State<W>)
    requires Inv(words, s)
    ensures Inv(words, ReaderStep(words, s))
  {
    if s.reader.Copying? && |s.reader.snapshot| < words {
      var snap, v := s.reader.snapshot, s.history[s.reader.x.version];
      assert snap + [v[|snap|]] == v[..|snap| + 1];
    }
  }

  lemma {:induction false} RunKeepsInv<W>(words: nat, s: State<W>, events: seq<Event<W>>)
    requires Inv(words, s)
    ensures Inv(words, Run(words, s, events))
    decreases |events|
  {
    if events != [] {
      match events[0] {
        case WriterMoves => WriterKeepsInv(words, s);
        case ReaderMoves => ReaderKeepsInv(words, s);
        case _ =>
      }
      RunKeepsInv(words, Step(words, s, events[0]), events[1..]);
    }
  }

  // ---- what every run guarantees ----

  /** In every interleaving the indices stay a permutation of 0..2, so the slot being copied is
      never the one being written, and a load returns one committed value whole: the latest as
      of its exchange when no load, or an even number of them, has run since that was committed,
      otherwise an older one, namely what the previous load gave up. */
  lemma LoadReturnsWholeVersion<W>(words: nat, initial: Value<W>, events: seq<Event<W>>)
    requires |initial| == words && Shape(words, Init(initial))
    ensures var s := Run(words, Init(initial), events);
            && Permutation(s) && s.shared < 3 && s.write < 3 && s.read < 3
            && (s.reader.Returned? ==>
                  var x := s.reader.x;
                  && x.version <= x.latest && x.version < |s.history|
                  && s.reader.result == s.history[x.version]
                  && (x.version == x.latest <==> x.latest == 0 || x.loadsBefore % 2 == 0)
                  && (x.loadsBefore > 0 ==> x.version == x.gaveUpBefore))
  {
    InitInv(words, initial);
    RunKeepsInv(words, Init(initial), events);
  }

  function OneStore<W>(b: W): seq<Event<W>> {
    [StartStore([b]), WriterMoves, WriterMoves]
  }

  function OneLoad<W>(): seq<Event<W>> {
    [StartLoad, ReaderMoves, ReaderMoves, ReaderMoves]
  }

  lemma {:induction false} RunConcat<W>(words: nat, s: State<W>, a: seq<Event<W>>, b: seq<Event<W>>)
    requires Shape(words, s)
    ensures Shape(words, Run(words, s, a))
    ensures Run(words, s, a + b) == Run(words, Run(words, s, a), b)
    decreases |a|
  {
    if a == [] {
      assert a + b == b;
    } else {
      assert (a + b)[0] == a[0] && (a + b)[1..] == a[1..] + b;
      RunConcat(words, Step(words, s, a[0]), a[1..], b);
    }
  }

  lemma StoreAlone<W>(a: W, b: W)
    ensures Run(1, Init([a]), OneStore(b)) ==
            State([[a], [b], [a]], 1, 0, 2, WriterIdle, ReaderIdle, [[a], [b]], [0, 1, 0], 0, 0)
  {
    var s0 := Init([a]);
    var s1 := s0.(writer := Writing([b], 0));
    var s2 := s0.(writer := Writing([b], 1), buf := [[a], [b], [a]]);
    assert [a][0 := b] == [b];
    assert Step(1, s1, WriterMoves) == s2;
    assert OneStore(b)[1..] == [WriterMoves, WriterMoves] && OneStore(b)[1..][1..] == [WriterMoves];
    assert Run(1, s0, OneStore(b)) == Run(1, s1, [WriterMoves, WriterMoves]) == Run(1, s2, [WriterMoves]);
    assert Run(1, s2, [WriterMoves]) == Run(1, WriterStep(1, s2), []) == WriterStep(1, s2);
  }

  /** A load of a one-word buffer that nothing interrupts. */
  lemma LoadAlone<W>(s: State<W>)
    requires Shape(1, s) && (s.reader.ReaderIdle? || s.reader.Returned?)
    ensures Run(1, s, OneLoad()) ==
            s.(read := s.shared, shared := s.read, loads := s.loads + 1, gaveUp := s.version[s.read],
               reader := Returned(s.buf[s.shared], Exchange(s.version[s.shared], |s.history| - 1, s.loads, s.gaveUp)))
  {
    RunFour(1, s, StartLoad, ReaderMoves, ReaderMoves, ReaderMoves);
    hide Run;
    var s1 := Step(1, s, StartLoad);
    assert s1 == s.(reader := LoadCalled);
    var s2 := Step(1, s1, ReaderMoves);
    assert s2 == s.(read := s.shared, shared := s.read, loads := s.loads + 1, gaveUp := s.version[s.read],
                    reader := Copying([], Exchange(s.version[s.shared], |s.history| - 1, s.loads, s.gaveUp)));
    StepKeepsShape(1, s, StartLoad);
    StepKeepsShape(1, s1, ReaderMoves);
    hide Step, Shape;
    LoadWord(s2);
  }

  lemma LoadWord<W>(s: State<W>)
    requires Shape(1, s) && s.reader.Copying? && s.reader.snapshot == []
    ensures var s1 := Step(1, s, ReaderMoves);
            s1 == s.(reader := Copying(s.buf[s.read], s.reader.x)) && Shape(1, s1)
            && Step(1, s1, ReaderMoves) == s.(reader := Returned(s.buf[s.read], s.reader.x))
  {
    assert [] + [s.buf[s.read][0]] == s.buf[s.read];
  }

  lemma RunFour<W>(words: nat, s: State<W>, a: Event<W>, b: Event<W>, c: Event<W>, d: Event<W>)
    requires Shape(words, s)
    ensures var s1 := Step(words, s, a);
            Shape(words, s1) &&
            var s2 := Step(words, s1, b);
            Shape(words, s2) &&
            var s3 := Step(words, s2, c);
            Shape(words, s3) && Run(words, s, [a, b, c, d]) == Step(words, s3, d)
  {
    var s1 := Step(words, s, a);
    StepKeepsShape(words, s, a);
    var s2 := Step(words, s1, b);
    StepKeepsShape(words, s1, b);
    var s3 := Step(words, s2, c);
    StepKeepsShape(words, s2, c);
    StepKeepsShape(words, s3, d);
    hide Step, Shape;
    assert [a, b, c, d][1..] == [b, c, d] && [b, c, d][1..] == [c, d] && [c, d][1..] == [d] && [d][1..] == [];
    var s4 := Step(words, s3, d);
    assert Run(words, s3, [d]) == Run(words, s4, []) == s4;
    assert Run(words, s2, [c, d]) == s4;
    assert Run(words, s1, [b, c, d]) == s4;
  }

  /** "The reader always gets the latest committed value" fails for the second of two loads with
      no store in between: it returns the value from before the store. */
  lemma SecondLoadIsStale<W>(a: W, b: W)
    ensures var s := Run(1, Init([a]), OneStore(b) + OneLoad() + OneLoad());
            s.history == [[a], [b]] && s.reader.Returned? && s.reader.result == [a]
  {
    RunConcat(1, Init([a]), OneStore(b), OneLoad());
    RunConcat(1, Init([a]), OneStore(b) + OneLoad(), OneLoad());
    StoreAlone(a, b);
    LoadAlone(Run(1, Init([a]), OneStore(b)));
    LoadAlone(Run(1, Init([a]), OneStore(b) + OneLoad()));
  }

  // ---- the object ----

  /** The buffer object, with its methods run without interruption. */
  class Buffer<W> {
    const words: nat
    const buf: array<Value<W>>
    var shared: nat
    var write: nat
    var read: nat
    ghost var history: seq<Value<W>>
    ghost var version: seq<nat>
    ghost var loads: nat
    ghost var gaveUp: nat

    ghost function AsState(): State<W>
      reads this, buf
    {
      State(buf[..], shared, write, read, WriterIdle, ReaderIdle, history, version, loads, gaveUp)
    }

    ghost predicate Valid()
      reads this, buf
    {
      Inv(words, AsState())
    }

    constructor (initial: Value<W>)
      ensures Valid() && fresh(buf) && words == |initial| && history == [initial] && loads == 0
    {
      words := |initial|;
      buf := new Value<W>[3](_ => initial);
      shared, write, read := 0, 1, 2;
      history, version, loads, gaveUp := [initial], [0, 0, 0], 0, 0;
      new;
      assert buf[..] == [initial, initial, initial];
      InitInv(words, initial);
    }

    method Store(value: Value<W>)
      requires Valid() && |value| == words
      modifies this, buf
      ensures Valid()
      ensures history == old(history) + [value] && loads == 0
    {
      ghost var s := AsState().(writer := Writing(value, words), buf := AsState().buf[write := value]);
      CommitKeepsInv(words, s);
      buf[write] := value;
      assert buf[..] == s.buf;
      history, version, loads := history + [value], version[write := |history|], 0;
      shared, write := write, shared;
    }

    method Load() returns (value: Value<W>)
      requires Valid()
      modifies this
      ensures Valid() && history == old(history) && loads == old(loads) + 1
      ensures value in history
      ensures old(loads) % 2 == 0 ==> value == history[|history| - 1]
      ensures old(loads) > 0 ==> value == history[old(gaveUp)]
    {
      ReaderKeepsInv(words, AsState().(reader := LoadCalled));
      loads, gaveUp := loads + 1, version[read];
      read, shared := shared, read;
      return buf[read];
    }
  }
}
