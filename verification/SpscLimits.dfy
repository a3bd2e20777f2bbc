/**
 When the single-producer / single-consumer ring queue is safe: for counters at least as wide as
 int exactly when its capacity is below the counter range, and for narrower ones never.
 */
module SpscLimits {
  import opened WordArith
  import opened SpscQueue
  import opened IsrSpscQueue

  function Pushes<T>(v: T, n: nat): seq<Event<T>> {
    if n == 0 then [] else Pushes(v, n - 1) + OnePush(v)
  }

  /** Nothing but n pushes since both counters were f, which designates slot 0. */
  ghost predicate OnlyPushed<T>(c: Config, s: State<T>, v: T, f: nat, n: nat) {
    && s.ok && s.front == f && s.back == (f + n) % c.Modulus() && s.producer.PushIdle? && s.consumer.ConsumerIdle?
    && |s.slots| == c.Capacity()
    && (forall i :: 0 <= i < n ==> i < c.Capacity() && s.slots[i] == Live(v))
    && (forall i :: n <= i < c.Capacity() ==> s.slots[i] == Dead)
  }

  /** The n-th of those pushes is let through, and goes to slot n. */
  predicate LetThrough(c: Config, f: nat, n: nat) {
    var b := (f + n) % c.Modulus();
    c.Difference(b, f) != c.Capacity() && c.IndexOf(b) == n < c.Capacity()
  }

  lemma {:induction false} ManyPushes<T>(c: Config, s: State<T>, v: T, f: nat, n: nat)
    requires OnlyPushed(c, s, v, f, 0) && forall i :: 0 <= i < n ==> LetThrough(c, f, i)
    ensures OnlyPushed(c, Run(c, s, Pushes(v, n)), v, f, n)
    decreases n
  {
    if n > 0 {
      ManyPushes(c, s, v, f, n - 1);
      var t := Run(c, s, Pushes(v, n - 1));
      RunConcat(c, s, Pushes(v, n - 1), OnePush(v));
      RunOnePush(c, t, v);
      hide Run, Step5, Pushes;
      PushInto(c, t, v, f, n - 1);
    }
  }

  lemma PushInto<T>(c: Config, s: State<T>, v: T, f: nat, n: nat)
    requires OnlyPushed(c, s, v, f, n) && LetThrough(c, f, n)
    ensures OnlyPushed(c, Step5(c, s, v), v, f, n + 1)
  {
    PushSteps(c, s, v);
    NextCounter(c, f, n);
    hide Step5, Config.IndexOf, Config.Difference, Config.Capacity, Config.Increment, Config.Modulus;
    var t := AfterPush(c, s, v);
    assert t == s.(slots := s.slots[n := Live(v)], back := (f + n + 1) % c.Modulus(),
                   producerAnswer := Pushed(v), pushed := s.pushed + [v]);
    hide AfterPush, LetThrough;
  }

  lemma NextCounter(c: Config, f: nat, n: nat)
    ensures c.Increment((f + n) % c.Modulus()) == (f + n + 1) % c.Modulus()
  {
    WrapAdd(f + n, 1, c.Modulus());
  }

  /** When the counter has come round to 0 while slot 0 is live, the next push constructs over it. */
  lemma PushOverLive<T>(c: Config, s: State<T>, v: T)
    requires s.producer.PushIdle? && s.back == 0 && |s.slots| == c.Capacity()
    requires c.Difference(0, s.front) != c.Capacity() && s.slots[0] == Live(v)
    ensures !Step5(c, s, v).ok
  {
    hide BitAnd, Pow2, Config.Capacity, Config.Difference, Config.Modulus;
    var s2 := ProducerStep(c, Step(c, s, StartPush(v)));
    assert s2 == s.(producer := PushHasRoom(v, 0));
    ZeroIndex(c);
    hide Config.IndexOf;
    assert At(c, s2, 0) == Live(v);
    var s3 := ProducerStep(c, s2);
    assert !s3.ok;
    hide ProducerStep, Step, At;
    FaultStays(c, s3);
    FaultStays(c, ProducerStep(c, s3));
  }

  lemma ZeroIndex(c: Config)
    ensures c.IndexOf(0) == 0
  {
  }

  lemma FaultStays<T>(c: Config, s: State<T>)
    requires !s.ok
    ensures !ProducerStep(c, s).ok
  {
  }

  /** From a state with nothing pushed: n pushes, and then one over the first. */
  lemma RoundAndOver<T>(c: Config, s: State<T>, v: T, f: nat, n: nat)
    requires OnlyPushed(c, s, v, f, 0) && forall i :: 0 <= i < n ==> LetThrough(c, f, i)
    requires n > 0 && (f + n) % c.Modulus() == 0 && c.Difference(0, f) != c.Capacity()
    ensures !Run(c, s, Pushes(v, n + 1)).ok
  {
    ManyPushes(c, s, v, f, n);
    var t := Run(c, s, Pushes(v, n));
    RunConcat(c, s, Pushes(v, n), OnePush(v));
    RunOnePush(c, t, v);
    PushOverLive(c, t, v);
  }

  // ---- as many slots as the counter has values, or more ----

  lemma InitOnlyPushed<T>(c: Config, v: T)
    ensures OnlyPushed(c, Init<T>(c), v, 0, 0)
  {
    ModUnique(0, c.Modulus(), 0, 0);
  }

  lemma PlaceBeforeWrap(c: Config, n: nat)
    requires n < c.Modulus() <= c.Capacity()
    ensures LetThrough(c, 0, n)
  {
    ModUnique(n, c.Modulus(), 0, n);
    MaskIsMod(n, c.k);
    ModUnique(n, c.Capacity(), 0, n);
  }

  /** After 2^w pushes the counters look equal again: the next push is let through, and constructs
      over the first, still live, element. */
  lemma TooLargeFaults<T>(c: Config, v: T)
    requires c.w <= c.k
    ensures !Run(c, Init(c), Pushes(v, c.Modulus() + 1)).ok
  {
    var m := c.Modulus();
    Pow2AtMost(c.k, c.w);
    InitOnlyPushed(c, v);
    forall i | 0 <= i < m ensures LetThrough(c, 0, i) {
      PlaceBeforeWrap(c, i);
    }
    ModUnique(m, m, 1, 0);
    ModUnique(0, m, 0, 0);
    RoundAndOver(c, Init(c), v, 0, m);
  }

  // ---- counters narrower than int ----

  function OnePair<T>(v: T): seq<Event<T>> {
    OnePush(v) + [StartPop, ConsumerMoves, ConsumerMoves, ConsumerMoves, ConsumerMoves]
  }

  function Pairs<T>(v: T, n: nat): seq<Event<T>> {
    if n == 0 then [] else Pairs(v, n - 1) + OnePair(v)
  }

  /** Nothing queued, and both counters at n. */
  ghost predicate Drained<T>(c: Config, s: State<T>, n: nat) {
    && s.ok && s.front == s.back == n && s.producer.PushIdle? && s.consumer.ConsumerIdle?
    && |s.slots| == c.Capacity() && forall i :: 0 <= i < c.Capacity() ==> s.slots[i] == Dead
  }

  lemma RunOnePop<T>(c: Config, s: State<T>)
    ensures Run(c, s, [StartPop, ConsumerMoves, ConsumerMoves, ConsumerMoves, ConsumerMoves]) == PopSteps(c, s)
  {
    var e: seq<Event<T>> := [StartPop, ConsumerMoves, ConsumerMoves, ConsumerMoves, ConsumerMoves];
    assert e[1..] == [ConsumerMoves, ConsumerMoves, ConsumerMoves, ConsumerMoves];
    assert e[1..][1..] == [ConsumerMoves, ConsumerMoves, ConsumerMoves];
    assert e[1..][1..][1..] == [ConsumerMoves, ConsumerMoves];
    assert e[1..][1..][1..][1..] == [ConsumerMoves];
    var s1 := Step(c, s, StartPop);
    var s2 := ConsumerStep(c, s1);
    var s3 := ConsumerStep(c, s2);
    var s4 := ConsumerStep(c, s3);
    hide ConsumerStep;
    assert Run(c, s, e) == Run(c, s1, e[1..]) == Run(c, s2, e[1..][1..]) == Run(c, s3, e[1..][1..][1..]);
    assert Run(c, s3, e[1..][1..][1..]) == Run(c, s4, [ConsumerMoves]) == Run(c, ConsumerStep(c, s4), []);
  }

  lemma PairDrains<T>(c: Config, s: State<T>, v: T, n: nat)
    requires Drained(c, s, n) && n + 1 < c.Modulus()
    ensures Drained(c, PopSteps(c, Step5(c, s, v)), n + 1)
  {
    var i := c.IndexOf(n);
    MaskIsMod(n, c.k);
    ModUnique(0, c.Modulus(), 0, 0);
    ModUnique(n + 1, c.Modulus(), 0, n + 1);
    PushSteps(c, s, v);
    hide Step5, PopSteps, Config.IndexOf, Config.Difference;
    var t := AfterPush(c, s, v);
    PopStepsSolo(c, t, v);
    assert s.slots[i := Live(v)][i := Dead] == s.slots;
  }

  lemma {:induction false} ManyPairs<T>(c: Config, v: T, n: nat)
    requires n < c.Modulus()
    ensures Drained(c, Run(c, Init(c), Pairs(v, n)), n)
  {
    if n > 0 {
      ManyPairs(c, v, n - 1);
      var s := Run(c, Init(c), Pairs(v, n - 1));
      var pop: seq<Event<T>> := [StartPop, ConsumerMoves, ConsumerMoves, ConsumerMoves, ConsumerMoves];
      RunConcat(c, Init(c), Pairs(v, n - 1), OnePair(v));
      RunConcat(c, s, OnePush(v), pop);
      RunOnePush(c, s, v);
      RunOnePop(c, Step5(c, s, v));
      hide Run, Step5, PopSteps, Drained, OnePush;
      PairDrains(c, s, v, n - 1);
    }
  }

  /** Push and pop until one lap of the ring is left before the counters wrap, then fill the ring
      and push once more. */
  function NarrowRun<T>(c: Config, v: T): seq<Event<T>>
    requires c.k < c.w
  {
    Pow2Less(c.k, c.w);
    Pairs(v, c.Modulus() - c.Capacity()) + Pushes(v, c.Capacity() + 1)
  }

  lemma LastLap(c: Config, n: nat)
    requires c.narrow && c.k < c.w && n < c.Capacity()
    ensures c.Capacity() < c.Modulus() && LetThrough(c, c.Modulus() - c.Capacity(), n)
  {
    Pow2Less(c.k, c.w);
    var m, cap, laps := c.Modulus(), c.Capacity(), Pow2(c.w - c.k);
    var b := m - cap + n;
    ModUnique(b, m, 0, b);
    MaskIsMod(b, c.k);
    assert b == (laps - 1) * cap + n by { OneLess(laps, cap); }
    ModUnique(b, cap, laps - 1, n);
  }

  lemma OneLess(laps: nat, cap: nat)
    ensures (laps - 1) * cap == laps * cap - cap
  {
  }

  /** A full queue whose back_ has wrapped and whose front_ has not differs by less than its capacity,
      as ints: it is not found full, and the next push constructs over its oldest element. */
  lemma NarrowFaults<T>(c: Config, v: T)
    requires c.narrow && c.k < c.w
    ensures !Run(c, Init(c), NarrowRun(c, v)).ok
  {
    LastLap(c, 0);
    var m, cap := c.Modulus(), c.Capacity();
    var f := m - cap;
    ManyPairs(c, v, f);
    var s := Run(c, Init(c), Pairs(v, f));
    RunConcat(c, Init(c), Pairs(v, f), Pushes(v, cap + 1));
    ModUnique(f, m, 0, f);
    ModUnique(m, m, 1, 0);
    forall i | 0 <= i < cap ensures LetThrough(c, f, i) {
      LastLap(c, i);
    }
    hide Run, Pushes, Pairs, LetThrough;
    RoundAndOver(c, s, v, f, cap);
  }

  /** The queue is safe over all runs exactly when its capacity is below the counter range and the
      counter type is at least as wide as int. */
  lemma SafeExactlyWhenSound<T(!new)>(c: Config, v: T)
    ensures (forall events: seq<Event<T>> :: Run(c, Init(c), events).ok) <==> c.Sound()
  {
    if c.Sound() {
      forall events: seq<Event<T>> ensures Run(c, Init(c), events).ok {
        FifoInEveryRun(c, events);
      }
    } else if c.k < c.w {
      NarrowFaults(c, v);
    } else {
      TooLargeFaults(c, v);
    }
  }
}
