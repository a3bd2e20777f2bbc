/**
 The queue object itself: the counters and the slot array, with the source's methods run
 without interruption. Each statement is one step of the machine in SpscQueue, so the
 machine's invariant is the object's.
 */
module IsrSpscQueue {
  import opened Wrappers
  import opened SpscQueue

  class Queue<T> {
    const c: Config
    var front: nat
    var back: nat
    const slots: array<Slot<T>>
    ghost var pushed: seq<T>
    ghost var taken: seq<T>

    /** The object as a machine state in which both sides are idle. */
    ghost function State(): SpscQueue.State<T>
      reads this, slots
    {
      SpscQueue.State(front, back, slots[..], PushIdle, ConsumerIdle, NoAnswer, NoAnswer, pushed, taken, true)
    }

    ghost predicate Valid()
      reads this, slots
    {
      c.Sound() && Inv(c, State())
    }

    ghost function Contents(): seq<T>
      requires Valid()
      reads this, slots
    {
      SpscQueue.Queue(State())
    }

    constructor (c: Config)
      requires c.Sound()
      ensures Valid() && fresh(slots) && this.c == c
      ensures Contents() == []
    {
      this.c := c;
      front, back := 0, 0;
      slots := new Slot<T>[c.Capacity()](_ => Dead);
      pushed, taken := [], [];
      new;
      InitInv<T>(c);
      assert slots[..] == Init<T>(c).slots;
    }

    method TryEmplace(v: T) returns (r: bool)
      requires Valid()
      modifies this, slots
      ensures Valid()
      ensures r <==> |old(Contents())| < c.Capacity()
      ensures Contents() == if r then old(Contents()) + [v] else old(Contents())
    {
      SoloPush(c, State(), v);
      var b := back;
      if c.Difference(b, front) == c.Capacity() {
        return false;
      }
      slots[c.IndexOf(b)] := Live(v);
      back := c.Increment(b);
      pushed := pushed + [v];
      return true;
    }

    method TryPop() returns (r: Option<T>)
      requires Valid()
      modifies this, slots
      ensures Valid()
      ensures old(Contents()) == [] ==> r == None && Contents() == []
      ensures old(Contents()) != [] ==> r == Some(old(Contents())[0]) && Contents() == old(Contents())[1..]
    {
      SoloPop(c, State());
      var f := front;
      if f == back {
        return None;
      }
      var i := c.IndexOf(f);
      r := Some(slots[i].value);
      slots[i] := MovedFrom;
      slots[i] := Dead;
      front := c.Increment(f);
      taken := taken + [r.value];
    }

    method Front() returns (r: Option<T>)
      requires Valid()
      ensures r == if Contents() == [] then None else Some(Contents()[0])
    {
      SoloPop(c, State());
      var f := front;
      if f == back {
        return None;
      }
      return Some(slots[c.IndexOf(f)].value);
    }

    method Clear()
      requires Valid()
      modifies this, slots
      ensures Valid()
      ensures Contents() == []
      ensures forall i :: 0 <= i < slots.Length ==> slots[i] == Dead
    {
      ghost var s := ClearStarted(c, State());
      var b := back;
      var f := front;
      while f != b
        invariant Inv(c, s)
        invariant s.consumer.Clearing? && s.consumer.seen == |pushed|
        invariant s == State().(consumer := Clearing(b, |pushed|, f, s.consumer.gone))
        invariant unchanged(this)
        decreases ClearWork(s)
      {
        s := ClearIteration(c, s);
        slots[c.IndexOf(f)] := Dead;
        f := c.Increment(f);
      }
      ClearFinished(c, s);
      front := b;
      taken := taken + s.consumer.gone;
      AllDead(c, State());
    }
  }

  /** The state after a push of v that finds room. */
  function AfterPush<T>(c: Config, s: SpscQueue.State<T>, v: T): SpscQueue.State<T> {
    Put(c, s, s.back, Live(v)).(back := c.Increment(s.back), producerAnswer := Pushed(v), pushed := s.pushed + [v])
  }

  /** The state after a pop of v. */
  function AfterPop<T>(c: Config, s: SpscQueue.State<T>, v: T): SpscQueue.State<T> {
    Put(c, s, s.front, Dead).(front := c.Increment(s.front), consumerAnswer := Popped(v), taken := s.taken + [v])
  }

  /** A push that nothing interrupts, as the machine's steps and as one change of state. */
  lemma SoloPush<T>(c: Config, s: SpscQueue.State<T>, v: T)
    requires c.Sound() && Inv(c, s) && s.producer.PushIdle?
    ensures |SpscQueue.Queue(s)| < c.Capacity() <==> c.Difference(s.back, s.front) != c.Capacity()
    ensures |SpscQueue.Queue(s)| == c.Capacity() ==> Step5(c, s, v) == s.(producerAnswer := PushFailed)
    ensures |SpscQueue.Queue(s)| < c.Capacity() ==>
              && c.IndexOf(s.back) < |s.slots|
              && Step5(c, s, v) == AfterPush(c, s, v) && Inv(c, AfterPush(c, s, v))
              && SpscQueue.Queue(AfterPush(c, s, v)) == SpscQueue.Queue(s) + [v]
  {
    CountersApart(c, s);
    if |SpscQueue.Queue(s)| < c.Capacity() {
      PlaceOfCounter(c, |s.pushed|);
      FillSlot(c, s.slots, s.pushed, FirstLive(s), FirstUsed(s) + c.Capacity(), Building);
      PushSteps(c, s, v);
      PushKeepsInv(c, s, v);
    }
  }

  lemma PushKeepsInv<T>(c: Config, s: SpscQueue.State<T>, v: T)
    requires c.Sound() && Inv(c, s) && s.producer.PushIdle?
    requires c.Difference(s.back, s.front) != c.Capacity()
    ensures Inv(c, Step5(c, s, v))
  {
    var s1 := Step(c, s, StartPush(v));
    StepKeepsInv(c, s, StartPush(v));
    ProducerKeepsInv(c, s1);
    ProducerKeepsInv(c, ProducerStep(c, s1));
    ProducerKeepsInv(c, ProducerStep(c, ProducerStep(c, s1)));
    ProducerKeepsInv(c, ProducerStep(c, ProducerStep(c, ProducerStep(c, s1))));
  }

  lemma PushSteps<T>(c: Config, s: SpscQueue.State<T>, v: T)
    requires s.producer.PushIdle? && c.Difference(s.back, s.front) != c.Capacity()
    requires c.IndexOf(s.back) < |s.slots| && s.slots[c.IndexOf(s.back)] == Dead
    ensures Step5(c, s, v) == AfterPush(c, s, v)
  {
    var b, i := s.back, c.IndexOf(s.back);
    var s2 := ProducerStep(c, Step(c, s, StartPush(v)));
    assert s2 == s.(producer := PushHasRoom(v, b));
    assert ProducerStep(c, s2) == s.(producer := PushBuilding(v, b), slots := s.slots[i := Building]);
    assert s.slots[i := Building][i := Live(v)] == s.slots[i := Live(v)];
  }

  /** With nothing queued and both sides idle, every slot of the ring is dead. */
  lemma AllDead<T>(c: Config, s: State<T>)
    requires Inv(c, s) && s.producer.PushIdle? && s.consumer.ConsumerIdle? && |s.taken| == |s.pushed|
    ensures forall i :: 0 <= i < |s.slots| ==> s.slots[i] == Dead
  {
    var cap, F := c.Capacity(), |s.taken|;
    forall i | 0 <= i < |s.slots| ensures s.slots[i] == Dead {
      var j := if F % cap <= i then F - F % cap + i else F - F % cap + cap + i;
      assert F == F / cap * cap + F % cap;
      WordArith.ModUnique(j, cap, if F % cap <= i then F / cap else F / cap + 1, i);
      assert Place(c, j) == i;
    }
  }

  function PopSteps<T>(c: Config, s: SpscQueue.State<T>): SpscQueue.State<T> {
    ConsumerStep(c, ConsumerStep(c, ConsumerStep(c, ConsumerStep(c, Step(c, s, StartPop)))))
  }

  lemma PopStepsSolo<T>(c: Config, s: SpscQueue.State<T>, v: T)
    requires s.consumer.ConsumerIdle? && s.front != s.back
    requires c.IndexOf(s.front) < |s.slots| && s.slots[c.IndexOf(s.front)] == Live(v)
    ensures PopSteps(c, s) == AfterPop(c, s, v)
  {
    var f, i := s.front, c.IndexOf(s.front);
    var s1 := ConsumerStep(c, Step(c, s, StartPop));
    assert s1 == s.(consumer := PopNonEmpty(f));
    assert ConsumerStep(c, s1) == s.(consumer := PopMoved(f, v), slots := s.slots[i := MovedFrom]);
    assert s.slots[i := MovedFrom][i := Dead] == s.slots[i := Dead];
  }

  /** A pop that nothing interrupts. */
  lemma SoloPop<T>(c: Config, s: SpscQueue.State<T>)
    requires c.Sound() && Inv(c, s) && s.consumer.ConsumerIdle?
    ensures SpscQueue.Queue(s) == [] <==> s.front == s.back
    ensures SpscQueue.Queue(s) == [] ==> PopSteps(c, s) == s.(consumerAnswer := PopFailed)
    ensures var q := SpscQueue.Queue(s);
            q != [] ==>
              && c.IndexOf(s.front) < |s.slots| && s.slots[c.IndexOf(s.front)] == Live(q[0])
              && PopSteps(c, s) == AfterPop(c, s, q[0]) && Inv(c, AfterPop(c, s, q[0]))
              && SpscQueue.Queue(AfterPop(c, s, q[0])) == q[1..]
  {
    CountersApart(c, s);
    hide SlotsHold, Place;
    if SpscQueue.Queue(s) != [] {
      var F := |s.taken|;
      PlaceOfCounter(c, F);
      TakeSlot(c, s.slots, s.pushed, F, EndUsed(s), Dead);
      PopStepsSolo(c, s, s.pushed[F]);
      PopKeepsInv(c, s);
      hide Inv;
    }
  }

  lemma PopKeepsInv<T>(c: Config, s: SpscQueue.State<T>)
    requires c.Sound() && Inv(c, s) && s.consumer.ConsumerIdle?
    ensures Inv(c, PopSteps(c, s))
  {
    var s1 := Step(c, s, StartPop);
    StepKeepsInv(c, s, StartPop);
    hide Inv, Step, ConsumerStep;
    ConsumerKeepsInv(c, s1);
    var s2 := ConsumerStep(c, s1);
    ConsumerKeepsInv(c, s2);
    var s3 := ConsumerStep(c, s2);
    ConsumerKeepsInv(c, s3);
    ConsumerKeepsInv(c, ConsumerStep(c, s3));
  }

  lemma ClearStarted<T>(c: Config, s: SpscQueue.State<T>) returns (t: SpscQueue.State<T>)
    requires c.Sound() && Inv(c, s) && s.consumer.ConsumerIdle?
    ensures Inv(c, t) && t == s.(consumer := Clearing(s.back, |s.pushed|, s.front, []))
  {
    StepKeepsInv(c, s, StartClear);
    t := Step(c, s, StartClear);
    StepKeepsInv(c, t, ConsumerMoves);
    t := Step(c, t, ConsumerMoves);
  }

  lemma ClearIteration<T>(c: Config, s: SpscQueue.State<T>) returns (t: SpscQueue.State<T>)
    requires c.Sound() && Inv(c, s) && s.consumer.Clearing? && s.consumer.f != s.consumer.b
    ensures Inv(c, t) && 0 < ClearWork(t) < ClearWork(s)
    ensures var i := c.IndexOf(s.consumer.f);
            i < |s.slots| && t.consumer.Clearing? &&
            t == s.(slots := s.slots[i := Dead],
                    consumer := Clearing(s.consumer.b, s.consumer.seen, c.Increment(s.consumer.f), t.consumer.gone))
  {
    var F := |s.taken| + |s.consumer.gone|;
    ClearGuard(c, s);
    PlaceOfCounter(c, F);
    DestroySlot(c, s.slots, s.pushed, F, EndUsed(s));
    ClearLoopKeepsInv(c, s);
    t := ConsumerStep(c, s);
  }

  lemma ClearFinished<T>(c: Config, s: SpscQueue.State<T>)
    requires c.Sound() && Inv(c, s) && s.consumer.Clearing? && s.consumer.f == s.consumer.b
    ensures |s.taken + s.consumer.gone| == s.consumer.seen
    ensures Inv(c, s.(front := s.consumer.b, taken := s.taken + s.consumer.gone, consumer := ConsumerIdle))
  {
    ClearGuard(c, s);
    ClearEndKeepsInv(c, s);
  }
}
