/**
 The single-producer / single-consumer ring queue, as a machine whose steps are the atomic
 loads and stores of the two counters and the construction, move and destruction of slots.
 */
module SpscQueue {
  import opened WordArith

  // The producer and the consumer each have a program counter; an event names the side that
  // moves next. Interleaving is sequentially consistent. Construction is two steps, so the
  // consumer may run while a slot is half built. A lifetime violation (constructing over a live
  // slot, reading, moving from or destroying a dead one) is not excluded by the steps: it clears
  // `ok`, and the theorems show that no run gets there.

  /** Counters are w bits wide and the ring has 2^k slots. A counter type narrower than int is
      promoted when two counters are subtracted, so that the difference does not wrap. */
  datatype Config = Config(w: nat, k: nat, narrow: bool) {
    /** The configurations in which the queue is safe. */
    predicate Sound() {
      k < w && !narrow
    }

    function Modulus(): (m: nat)
      ensures m > 0
    {
      Pow2(w)
    }

    function Capacity(): (c: nat)
      ensures c > 0
    {
      Pow2(k)
    }

    /** The ring index of an absolute counter. */
    function IndexOf(counter: nat): nat {
      BitAnd(counter, Capacity() - 1)
    }

    function Increment(counter: nat): nat {
      (counter + 1) % Modulus()
    }

    function Difference(b: nat, f: nat): int {
      if narrow then b - f else (b - f) % Modulus()
    }
  }

  datatype Slot<T> = Dead | Building | Live(value: T) | MovedFrom

  datatype Producer<T> =
    | PushIdle
    | PushHasBack(v: T, b: nat)     // back_ loaded
    | PushHasRoom(v: T, b: nat)     // front_ loaded, not full
    | PushBuilding(v: T, b: nat)    // construct_at under way
    | PushBuilt(v: T, b: nat)       // constructed, back_ not yet stored

  datatype Consumer<T> =
    | ConsumerIdle
    | PopHasFront(f: nat)
    | PopNonEmpty(f: nat)
    | PopMoved(f: nat, r: T)
    | PopDestroyed(f: nat, r: T)
    | PeekHasFront(f: nat)
    | PeekNonEmpty(f: nat)
    | ClearHasBack(b: nat, seen: nat)
    | Clearing(b: nat, seen: nat, f: nat, gone: seq<T>)

  /** What the last finished call on each side returned. */
  datatype Answer<T> = NoAnswer | Pushed(value: T) | PushFailed | Popped(value: T) | PopFailed
                     | Peeked(value: T) | PeekFailed | Cleared

  /** `pushed` and `taken` are histories: every value whose push was published by the store
      of back_, and every value that left through the store of front_, in order. `seen` in
      the clearing states is the length of `pushed` when back_ was loaded. */
  datatype State<T> = State(
    front: nat,
    back: nat,
    slots: seq<Slot<T>>,
    producer: Producer<T>,
    consumer: Consumer<T>,
    producerAnswer: Answer<T>,
    consumerAnswer: Answer<T>,
    pushed: seq<T>,
    taken: seq<T>,
    ok: bool)

  datatype Event<T> = StartPush(v: T) | StartPop | StartPeek | StartClear | ProducerMoves | ConsumerMoves

  function Init<T>(c: Config): State<T> {
    State(0, 0, seq(c.Capacity(), _ => Dead), PushIdle, ConsumerIdle, NoAnswer, NoAnswer, [], [], true)
  }

  /** The slot a counter designates, read from memory. */
  function At<T>(c: Config, s: State<T>, counter: nat): Slot<T>
  {
    var i := c.IndexOf(counter);
    if i < |s.slots| then s.slots[i] else Dead
  }

  function Put<T>(c: Config, s: State<T>, counter: nat, x: Slot<T>): State<T> {
    var i := c.IndexOf(counter);
    if i < |s.slots| then s.(slots := s.slots[i := x]) else s.(ok := false)
  }

  function Fault<T>(s: State<T>): State<T> {
    s.(ok := false)
  }

  function ProducerStep<T>(c: Config, s: State<T>): State<T> {
    match s.producer
    case PushIdle => s
    case PushHasBack(v, b) =>
      if c.Difference(b, s.front) == c.Capacity()
      then s.(producer := PushIdle, producerAnswer := PushFailed)
      else s.(producer := PushHasRoom(v, b))
    case PushHasRoom(v, b) =>
      if At(c, s, b) != Dead then Fault(s)
      else Put(c, s, b, Building).(producer := PushBuilding(v, b))
    case PushBuilding(v, b) =>
      Put(c, s, b, Live(v)).(producer := PushBuilt(v, b))
    case PushBuilt(v, b) =>
      s.(back := c.Increment(b), producer := PushIdle, producerAnswer := Pushed(v), pushed := s.pushed + [v])
  }

  function ConsumerStep<T>(c: Config, s: State<T>): State<T> {
    match s.consumer
    case ConsumerIdle => s
    case PopHasFront(f) =>
      if f == s.back then s.(consumer := ConsumerIdle, consumerAnswer := PopFailed)
      else s.(consumer := PopNonEmpty(f))
    case PopNonEmpty(f) =>
      var x := At(c, s, f);
      if !x.Live? then Fault(s)
      else Put(c, s, f, MovedFrom).(consumer := PopMoved(f, x.value))
    case PopMoved(f, r) =>
      if At(c, s, f) != MovedFrom then Fault(s)
      else Put(c, s, f, Dead).(consumer := PopDestroyed(f, r))
    case PopDestroyed(f, r) =>
      s.(front := c.Increment(f), consumer := ConsumerIdle, consumerAnswer := Popped(r), taken := s.taken + [r])
    case PeekHasFront(f) =>
      if f == s.back then s.(consumer := ConsumerIdle, consumerAnswer := PeekFailed)
      else s.(consumer := PeekNonEmpty(f))
    case PeekNonEmpty(f) =>
      var x := At(c, s, f);
      if !x.Live? then Fault(s)
      else s.(consumer := ConsumerIdle, consumerAnswer := Peeked(x.value))
    case ClearHasBack(b, seen) =>
      s.(consumer := Clearing(b, seen, s.front, []))
    case Clearing(b, seen, f, gone) =>
      if f == b then
        s.(front := b, consumer := ConsumerIdle, consumerAnswer := Cleared, taken := s.taken + gone)
      else
        var x := At(c, s, f);
        if !x.Live? then Fault(s)
        else Put(c, s, f, Dead).(consumer := Clearing(b, seen, c.Increment(f), gone + [x.value]))
  }

  /** One step. An event that does not apply (starting a call while one is running) changes nothing. */
  function Step<T>(c: Config, s: State<T>, e: Event<T>): State<T> {
    match e
    case StartPush(v) => if s.producer.PushIdle? then s.(producer := PushHasBack(v, s.back)) else s
    case StartPop => if s.consumer.ConsumerIdle? then s.(consumer := PopHasFront(s.front)) else s
    case StartPeek => if s.consumer.ConsumerIdle? then s.(consumer := PeekHasFront(s.front)) else s
    case StartClear => if s.consumer.ConsumerIdle? then s.(consumer := ClearHasBack(s.back, |s.pushed|)) else s
    case ProducerMoves => ProducerStep(c, s)
    case ConsumerMoves => ConsumerStep(c, s)
  }

  function Run<T>(c: Config, s: State<T>, events: seq<Event<T>>): State<T>
    decreases |events|
  {
    if events == [] then s else Run(c, Step(c, s, events[0]), events[1..])
  }

  // ---- the invariant ----

  /** Slot of the j-th pushed value; kept apart from % so that quantifiers trigger on it. */
  function Place(c: Config, j: nat): (i: nat)
    ensures i < c.Capacity()
  {
    j % c.Capacity()
  }

  /** Absolute position of the first slot that is still live. */
  function FirstLive<T>(s: State<T>): nat {
    match s.consumer
    case PopMoved(_, _) => |s.taken| + 1
    case PopDestroyed(_, _) => |s.taken| + 1
    case Clearing(_, _, _, gone) => |s.taken| + |gone|
    case _ => |s.taken|
  }

  /** Absolute position of the first slot that is not dead. */
  function FirstUsed<T>(s: State<T>): nat {
    if s.consumer.PopMoved? then |s.taken| else FirstLive(s)
  }

  /** Absolute position after the slot the producer has begun to fill. */
  function EndUsed<T>(s: State<T>): nat {
    |s.pushed| + if s.producer.PushBuilding? || s.producer.PushBuilt? then 1 else 0
  }

  ghost predicate ProducerInv<T>(c: Config, s: State<T>)
    requires |s.slots| == c.Capacity()
  {
    match s.producer
    case PushIdle => true
    case PushHasBack(v, b) => b == s.back
    case PushHasRoom(v, b) => b == s.back && |s.pushed| < |s.taken| + c.Capacity()
    case PushBuilding(v, b) =>
      b == s.back && |s.pushed| < |s.taken| + c.Capacity() && s.slots[Place(c, |s.pushed|)] == Building
    case PushBuilt(v, b) =>
      b == s.back && |s.pushed| < |s.taken| + c.Capacity() && s.slots[Place(c, |s.pushed|)] == Live(v)
  }

  ghost predicate ConsumerInv<T>(c: Config, s: State<T>)
    requires |s.slots| == c.Capacity()
  {
    var F := |s.taken|;
    match s.consumer
    case ConsumerIdle => true
    case PopHasFront(f) => f == s.front
    case PeekHasFront(f) => f == s.front
    case PopNonEmpty(f) => f == s.front && F < |s.pushed|
    case PeekNonEmpty(f) => f == s.front && F < |s.pushed|
    case PopMoved(f, r) => f == s.front && F < |s.pushed| && r == s.pushed[F] && s.slots[Place(c, F)] == MovedFrom
    case PopDestroyed(f, r) => f == s.front && F < |s.pushed| && r == s.pushed[F]
    case ClearHasBack(b, seen) => F <= seen <= |s.pushed| && b == seen % c.Modulus()
    case Clearing(b, seen, f, gone) =>
      && F + |gone| <= seen <= |s.pushed|
      && b == seen % c.Modulus()
      && f == (F + |gone|) % c.Modulus()
      && gone == s.pushed[F..F + |gone|]
  }

  ghost predicate CounterInv<T>(c: Config, s: State<T>) {
    && |s.slots| == c.Capacity()
    && s.front == |s.taken| % c.Modulus()
    && s.back == |s.pushed| % c.Modulus()
    && |s.taken| <= |s.pushed| <= |s.taken| + c.Capacity()
    && s.taken == s.pushed[..|s.taken|]
  }

  /** The slots of the positions [live, |pushed|) hold those values; the slots of the
      positions [dead0, dead1) are dead. */
  ghost predicate SlotsHold<T>(c: Config, slots: seq<Slot<T>>, pushed: seq<T>, live: nat, dead0: nat, dead1: nat) {
    && |slots| == c.Capacity()
    && (forall j: nat :: live <= j < |pushed| ==> slots[Place(c, j)] == Live(pushed[j]))
    && (forall j: nat :: dead0 <= j < dead1 ==> slots[Place(c, j)] == Dead)
  }

  /** Every slot is live exactly when it holds a value between the first live position and the
      end of `pushed`, and dead unless one side is at work on it. */
  ghost predicate SlotInv<T>(c: Config, s: State<T>) {
    SlotsHold(c, s.slots, s.pushed, FirstLive(s), EndUsed(s), FirstUsed(s) + c.Capacity())
  }

  ghost predicate Inv<T>(c: Config, s: State<T>) {
    && s.ok
    && CounterInv(c, s)
    && ProducerInv(c, s)
    && ConsumerInv(c, s)
    && SlotInv(c, s)
  }

  // ---- slots ----

  lemma PlaceOfCounter(c: Config, j: nat)
    requires c.Sound()
    ensures c.IndexOf(j % c.Modulus()) == Place(c, j)
  {
    MaskIsMod(j % c.Modulus(), c.k);
    Pow2Less(c.k, c.w);
    WrapThenMod(j, c.Modulus(), c.Capacity(), Pow2(c.w - c.k));
  }

  /** A position is alone on its slot within any stretch no longer than the ring. */
  lemma PlaceAlone(c: Config, j: nat, low: nat, high: nat)
    requires low <= j < high <= low + c.Capacity()
    ensures forall i: nat :: low <= i < high && i != j ==> Place(c, i) != Place(c, j)
  {
    forall i: nat | low <= i < high && i != j ensures Place(c, i) != Place(c, j) {
      RingDistinct(if i < j then i else j, if i < j then j else i, c.Capacity());
    }
  }

  lemma PlacesApart(c: Config, i: nat, j: nat)
    ensures i < j < i + c.Capacity() ==> Place(c, i) != Place(c, j)
  {
    if i < j < i + c.Capacity() {
      RingDistinct(i, j, c.Capacity());
    }
  }

  /** The producer may write into the first dead position. */
  lemma FillSlot<T>(c: Config, slots: seq<Slot<T>>, pushed: seq<T>, live: nat, dead1: nat, x: Slot<T>)
    requires SlotsHold(c, slots, pushed, live, |pushed|, dead1)
    requires live <= |pushed| < dead1 <= live + c.Capacity()
    ensures slots[Place(c, |pushed|)] == Dead
    ensures SlotsHold(c, slots[Place(c, |pushed|) := x], pushed, live, |pushed| + 1, dead1)
  {
    PlaceAlone(c, |pushed|, live, dead1);
  }

  /** Writing again into the position being filled. */
  lemma RefillSlot<T>(c: Config, slots: seq<Slot<T>>, pushed: seq<T>, live: nat, dead1: nat, x: Slot<T>)
    requires SlotsHold(c, slots, pushed, live, |pushed| + 1, dead1)
    requires live <= |pushed| < dead1 <= live + c.Capacity()
    ensures SlotsHold(c, slots[Place(c, |pushed|) := x], pushed, live, |pushed| + 1, dead1)
  {
    PlaceAlone(c, |pushed|, live, dead1);
  }

  /** The consumer may overwrite the first live position. */
  lemma TakeSlot<T>(c: Config, slots: seq<Slot<T>>, pushed: seq<T>, live: nat, dead0: nat, x: Slot<T>)
    requires SlotsHold(c, slots, pushed, live, dead0, live + c.Capacity())
    requires live < |pushed| <= dead0 <= live + c.Capacity()
    ensures slots[Place(c, live)] == Live(pushed[live])
    ensures SlotsHold(c, slots[Place(c, live) := x], pushed, live + 1, dead0, live + c.Capacity())
  {
    PlaceAlone(c, live, live, live + c.Capacity());
  }

  /** Once dead, the position taken serves as the last free one of the next lap. */
  lemma FreeSlot<T>(c: Config, slots: seq<Slot<T>>, pushed: seq<T>, live: nat, dead0: nat)
    requires SlotsHold(c, slots, pushed, live + 1, dead0, live + c.Capacity())
    requires live < |pushed| <= dead0 <= live + c.Capacity()
    ensures SlotsHold(c, slots[Place(c, live) := Dead], pushed, live + 1, dead0, live + 1 + c.Capacity())
  {
    PlaceAlone(c, live, live, live + c.Capacity());
    NextLap(c, live);
  }

  lemma NextLap(c: Config, j: nat)
    ensures Place(c, j + c.Capacity()) == Place(c, j)
  {
    var cap := c.Capacity();
    assert (j / cap + 1) * cap == j / cap * cap + cap;
    ModUnique(j + cap, cap, j / cap + 1, j % cap);
  }

  /** Destroying the first live position in one step, as clear does. */
  lemma DestroySlot<T>(c: Config, slots: seq<Slot<T>>, pushed: seq<T>, live: nat, dead0: nat)
    requires SlotsHold(c, slots, pushed, live, dead0, live + c.Capacity())
    requires live < |pushed| <= dead0 <= live + c.Capacity()
    ensures slots[Place(c, live)] == Live(pushed[live])
    ensures SlotsHold(c, slots[Place(c, live) := Dead], pushed, live + 1, dead0, live + 1 + c.Capacity())
  {
    TakeSlot(c, slots, pushed, live, dead0, Dead);
    var once := slots[Place(c, live) := Dead];
    FreeSlot(c, once, pushed, live, dead0);
    assert once[Place(c, live) := Dead] == once;
  }

  // ---- preservation ----

  lemma InitInv<T>(c: Config)
    ensures Inv(c, Init<T>(c))
  {
    var s := Init<T>(c);
    assert s.taken == s.pushed[..0];
    ModUnique(0, c.Modulus(), 0, 0);
  }

  lemma CountersApart<T>(c: Config, s: State<T>)
    requires c.Sound() && CounterInv(c, s)
    ensures c.Difference(s.back, s.front) == |s.pushed| - |s.taken|
    ensures s.back == s.front <==> |s.pushed| == |s.taken|
  {
    Pow2Less(c.k, c.w);
    WrapSub(|s.pushed|, |s.taken|, c.Modulus());
  }

  lemma BuildKeepsInv<T>(c: Config, s: State<T>)
    requires c.Sound() && Inv(c, s)
    requires s.producer.PushHasRoom? || s.producer.PushBuilding?
    ensures Inv(c, ProducerStep(c, s))
  {
    hide Place, SlotsHold;
    var B := |s.pushed|;
    PlaceOfCounter(c, B);
    PlacesApart(c, |s.taken|, B);
    if s.producer.PushHasRoom? {
      FillSlot(c, s.slots, s.pushed, FirstLive(s), FirstUsed(s) + c.Capacity(), Building);
    } else {
      RefillSlot(c, s.slots, s.pushed, FirstLive(s), FirstUsed(s) + c.Capacity(), Live(s.producer.v));
    }
  }

  lemma PublishKeepsInv<T>(c: Config, s: State<T>)
    requires c.Sound() && Inv(c, s)
    requires s.producer.PushBuilt?
    ensures Inv(c, ProducerStep(c, s))
  {
    var t := ProducerStep(c, s);
    WrapAdd(|s.pushed|, 1, c.Modulus());
    assert t.taken == t.pushed[..|t.taken|];
    if s.consumer.Clearing? {
      var n := |s.taken| + |s.consumer.gone|;
      assert t.pushed[|s.taken|..n] == s.pushed[|s.taken|..n];
    }
  }

  lemma ProducerKeepsInv<T>(c: Config, s: State<T>)
    requires c.Sound() && Inv(c, s)
    ensures Inv(c, ProducerStep(c, s))
  {
    match s.producer
    case PushIdle =>
    case PushHasBack(_, _) => CountersApart(c, s);
    case PushHasRoom(_, _) => BuildKeepsInv(c, s);
    case PushBuilding(_, _) => BuildKeepsInv(c, s);
    case PushBuilt(_, _) => PublishKeepsInv(c, s);
  }

  lemma MoveKeepsInv<T>(c: Config, s: State<T>)
    requires c.Sound() && Inv(c, s)
    requires s.consumer.PopNonEmpty? || s.consumer.PopMoved?
    ensures Inv(c, ConsumerStep(c, s))
  {
    var F := |s.taken|;
    PlaceOfCounter(c, F);
    PlaceAlone(c, F, F, F + c.Capacity());
    if s.consumer.PopNonEmpty? {
      TakeSlot(c, s.slots, s.pushed, F, EndUsed(s), MovedFrom);
    } else {
      FreeSlot(c, s.slots, s.pushed, F, EndUsed(s));
    }
  }

  lemma PopCommitKeepsInv<T>(c: Config, s: State<T>)
    requires c.Sound() && Inv(c, s)
    requires s.consumer.PopDestroyed?
    ensures Inv(c, ConsumerStep(c, s))
  {
    var t := ConsumerStep(c, s);
    WrapAdd(|s.taken|, 1, c.Modulus());
    assert t.taken == t.pushed[..|t.taken|];
  }

  /** The counter of the clear loop meets the loaded back_ only when every value seen is gone. */
  lemma ClearGuard<T>(c: Config, s: State<T>)
    requires c.Sound() && CounterInv(c, s) && ConsumerInv(c, s) && s.consumer.Clearing?
    ensures s.consumer.f == s.consumer.b <==> |s.taken| + |s.consumer.gone| == s.consumer.seen
  {
    Pow2Less(c.k, c.w);
    WrapSub(s.consumer.seen, |s.taken| + |s.consumer.gone|, c.Modulus());
  }

  /** A state in the clear loop, one turn on: the first live element destroyed, and no other. */
  function ClearedOneMore<T>(c: Config, s: State<T>): State<T>
    requires s.consumer.Clearing? && |s.taken| + |s.consumer.gone| < |s.pushed| && |s.slots| == c.Capacity()
  {
    var Clearing(b, seen, f, gone) := s.consumer;
    var F := |s.taken| + |gone|;
    s.(slots := s.slots[Place(c, F) := Dead],
       consumer := Clearing(b, seen, (F + 1) % c.Modulus(), gone + [s.pushed[F]]))
  }

  lemma ClearLoopStep<T>(c: Config, s: State<T>)
    requires c.Sound() && Inv(c, s)
    requires s.consumer.Clearing? && s.consumer.f != s.consumer.b
    ensures |s.taken| + |s.consumer.gone| < s.consumer.seen
    ensures ConsumerStep(c, s) == ClearedOneMore(c, s)
  {
    var F := |s.taken| + |s.consumer.gone|;
    ClearGuard(c, s);
    PlaceOfCounter(c, F);
    WrapAdd(F, 1, c.Modulus());
    hide Place, SlotsHold, Config.IndexOf, Config.Difference;
    DestroySlot(c, s.slots, s.pushed, F, EndUsed(s));
  }

  lemma ClearKeepsSlots<T>(c: Config, s: State<T>)
    requires |s.slots| == c.Capacity() && SlotInv(c, s) && s.consumer.Clearing?
    requires |s.taken| + |s.consumer.gone| < |s.pushed|
    requires EndUsed(s) <= |s.taken| + |s.consumer.gone| + c.Capacity()
    ensures SlotInv(c, ClearedOneMore(c, s))
  {
    hide Place, SlotsHold, Config.Modulus, Config.Capacity;
    var F := |s.taken| + |s.consumer.gone|;
    var t := ClearedOneMore(c, s);
    assert FirstLive(s) == FirstUsed(s) == F && FirstLive(t) == FirstUsed(t) == F + 1 && EndUsed(t) == EndUsed(s);
    DestroySlot(c, s.slots, s.pushed, F, EndUsed(s));
  }

  lemma ClearKeepsProducer<T>(c: Config, s: State<T>)
    requires Inv(c, s) && s.consumer.Clearing? && |s.taken| + |s.consumer.gone| < s.consumer.seen
    ensures ProducerInv(c, ClearedOneMore(c, s))
  {
    hide Place, SlotInv, Config.Modulus;
    PlacesApart(c, |s.taken| + |s.consumer.gone|, |s.pushed|);
  }

  lemma ClearLoopKeepsInv<T>(c: Config, s: State<T>)
    requires c.Sound() && Inv(c, s)
    requires s.consumer.Clearing? && s.consumer.f != s.consumer.b
    ensures Inv(c, ConsumerStep(c, s))
  {
    ClearLoopStep(c, s);
    ClearKeepsSlots(c, s);
    ClearKeepsProducer(c, s);
    OneMoreGone(s.pushed, |s.taken|, |s.taken| + |s.consumer.gone|);
    hide ConsumerStep, ProducerInv, SlotInv, Place, Config.Modulus;
  }

  lemma OneMoreGone<T>(pushed: seq<T>, taken: nat, n: nat)
    requires taken <= n < |pushed|
    ensures pushed[taken..n] + [pushed[n]] == pushed[taken..n + 1]
  {
  }

  lemma ClearEndKeepsInv<T>(c: Config, s: State<T>)
    requires c.Sound() && Inv(c, s)
    requires s.consumer.Clearing? && s.consumer.f == s.consumer.b
    ensures Inv(c, ConsumerStep(c, s))
  {
    ClearGuard(c, s);
    var t := ConsumerStep(c, s);
    assert t.taken == t.pushed[..|t.taken|];
  }

  lemma ConsumerKeepsInv<T>(c: Config, s: State<T>)
    requires c.Sound() && Inv(c, s)
    ensures Inv(c, ConsumerStep(c, s))
  {
    match s.consumer
    case ConsumerIdle =>
    case PopHasFront(_) => CountersApart(c, s);
    case PeekHasFront(_) => CountersApart(c, s);
    case PeekNonEmpty(_) => PlaceOfCounter(c, |s.taken|);
    case PopNonEmpty(_) => MoveKeepsInv(c, s);
    case PopMoved(_, _) => MoveKeepsInv(c, s);
    case PopDestroyed(_, _) => PopCommitKeepsInv(c, s);
    case ClearHasBack(_, _) => assert s.pushed[|s.taken|..|s.taken|] == [];
    case Clearing(b, _, f, _) =>
      if f == b {
        ClearEndKeepsInv(c, s);
      } else {
        ClearLoopKeepsInv(c, s);
      }
  }

  lemma StepKeepsInv<T>(c: Config, s: State<T>, e: Event<T>)
    requires c.Sound() && Inv(c, s)
    ensures Inv(c, Step(c, s, e))
  {
    match e
    case ProducerMoves => ProducerKeepsInv(c, s);
    case ConsumerMoves => ConsumerKeepsInv(c, s);
    case _ =>
  }

  lemma {:induction false} RunKeepsInv<T>(c: Config, s: State<T>, events: seq<Event<T>>)
    requires c.Sound() && Inv(c, s)
    ensures Inv(c, Run(c, s, events))
    decreases |events|
  {
    if events != [] {
      StepKeepsInv(c, s, events[0]);
      RunKeepsInv(c, Step(c, s, events[0]), events[1..]);
    }
  }

  // ---- what every run guarantees ----

  /** The queue an observer would draw: values published and not yet taken. */
  function Queue<T>(s: State<T>): seq<T>
    requires |s.taken| <= |s.pushed|
  {
    s.pushed[|s.taken|..]
  }

  /** FIFO and lifetimes, in every interleaving and for every run length: nothing is
      constructed, read, moved or destroyed out of turn; what was taken is what was pushed
      first, in order; and the slots from front_ to back_, read through the wrapped counters,
      hold the rest (the first of them is already gone while a pop is under way). */
  lemma FifoInEveryRun<T>(c: Config, events: seq<Event<T>>)
    requires c.Sound()
    ensures var s := Run(c, Init(c), events);
            && s.ok
            && |s.pushed| - |s.taken| == c.Difference(s.back, s.front) <= c.Capacity()
            && s.pushed[..|s.taken|] == s.taken
            && forall j: nat :: FirstLive(s) <= j < |s.pushed| ==> At(c, s, j % c.Modulus()) == Live(s.pushed[j])
  {
    InitInv<T>(c);
    RunKeepsInv(c, Init(c), events);
    var s := Run(c, Init(c), events);
    CountersApart(c, s);
    forall j: nat | FirstLive(s) <= j < |s.pushed| ensures At(c, s, j % c.Modulus()) == Live(s.pushed[j]) {
      PlaceOfCounter(c, j);
    }
  }

  /** Every step acts on the queue as one of the operations of a bounded FIFO. A push is
      refused exactly when the queue is full as front_ is read, a pop or peek exactly when it
      is empty as back_ is read, and what they return is the oldest value. */
  lemma StepActsOnQueue<T>(c: Config, s: State<T>, e: Event<T>)
    requires c.Sound() && Inv(c, s)
    ensures var t := Step(c, s, e);
            var q := Queue(s);
            match e
            case ProducerMoves =>
              if s.producer.PushBuilt? then
                Queue(t) == q + [s.producer.v] && |q| < c.Capacity() && t.producerAnswer == Pushed(s.producer.v)
              else
                && Queue(t) == q
                && (s.producer.PushHasBack? ==>
                     (t.producer.PushIdle? && t.producerAnswer.PushFailed? <==> |q| == c.Capacity()))
            case ConsumerMoves =>
              (match s.consumer
               case PopHasFront(_) =>
                 Queue(t) == q && (t.consumer.ConsumerIdle? && t.consumerAnswer.PopFailed? <==> q == [])
               case PeekHasFront(_) =>
                 Queue(t) == q && (t.consumer.ConsumerIdle? && t.consumerAnswer.PeekFailed? <==> q == [])
               case PeekNonEmpty(_) => Queue(t) == q && q != [] && t.consumerAnswer == Peeked(q[0])
               case PopDestroyed(_, _) =>
                 q != [] && Queue(t) == q[1..] && t.consumerAnswer == Popped(q[0]) && t.consumer.ConsumerIdle?
               case Clearing(b, seen, f, _) =>
                 if f == b then |s.taken| <= seen <= |s.pushed| && Queue(t) == s.pushed[seen..]
                 else Queue(t) == q
               case _ => Queue(t) == q)
            case _ => Queue(t) == q
  {
    CountersApart(c, s);
    if e.ConsumerMoves? && (s.consumer.PeekNonEmpty? || s.consumer.PopNonEmpty?) {
      PlaceOfCounter(c, |s.taken|);
    }
    if e.ConsumerMoves? && s.consumer.Clearing? {
      ClearGuard(c, s);
    }
    hide Place;
  }

  /** The steps a clear still has to make. */
  function ClearWork<T>(s: State<T>): int {
    match s.consumer
    case ClearHasBack(_, seen) => seen - |s.taken| + 2
    case Clearing(_, seen, _, gone) => seen - |s.taken| - |gone| + 1
    case _ => 0
  }

  /** clear ends within Capacity + 2 consumer steps, across any wrap of its counter and whatever
      the producer does meanwhile, and takes exactly what was in the queue as it began. */
  lemma ClearEnds<T>(c: Config, s: State<T>, e: Event<T>)
    requires c.Sound() && Inv(c, s)
    requires s.consumer.ClearHasBack? || s.consumer.Clearing?
    ensures 0 < ClearWork(s) <= c.Capacity() + 2
    ensures ClearWork(Step(c, s, e)) == if e.ConsumerMoves? then ClearWork(s) - 1 else ClearWork(s)
    ensures e.ConsumerMoves? && ClearWork(s) == 1 ==>
              var t := Step(c, s, e);
              t.consumer.ConsumerIdle? && |t.taken| == s.consumer.seen && t.taken == s.pushed[..s.consumer.seen]
  {
    hide BitAnd, Pow2, Config.IndexOf, Config.Difference, Place, SlotsHold;
    if s.consumer.Clearing? {
      ClearGuard(c, s);
      if s.consumer.f != s.consumer.b {
        var F := |s.taken| + |s.consumer.gone|;
        PlaceOfCounter(c, F);
        DestroySlot(c, s.slots, s.pushed, F, EndUsed(s));
      }
    }
  }

  // ---- whole pushes as runs ----

  function OnePush<T>(v: T): seq<Event<T>> {
    [StartPush(v), ProducerMoves, ProducerMoves, ProducerMoves, ProducerMoves]
  }

  lemma {:induction false} RunConcat<T>(c: Config, s: State<T>, a: seq<Event<T>>, b: seq<Event<T>>)
    ensures Run(c, s, a + b) == Run(c, Run(c, s, a), b)
    decreases |a|
  {
    if a == [] {
      assert a + b == b;
    } else {
      assert (a + b)[0] == a[0] && (a + b)[1..] == a[1..] + b;
      RunConcat(c, Step(c, s, a[0]), a[1..], b);
    }
  }

  function Step5<T>(c: Config, s: State<T>, v: T): State<T> {
    ProducerStep(c, ProducerStep(c, ProducerStep(c, ProducerStep(c, Step(c, s, StartPush(v))))))
  }

  lemma RunOnePush<T>(c: Config, s: State<T>, v: T)
    ensures Run(c, s, OnePush(v)) == Step5(c, s, v)
  {
    var e := OnePush(v);
    assert e[1..] == [ProducerMoves, ProducerMoves, ProducerMoves, ProducerMoves];
    assert e[1..][1..] == [ProducerMoves, ProducerMoves, ProducerMoves];
    assert e[1..][1..][1..] == [ProducerMoves, ProducerMoves];
    assert e[1..][1..][1..][1..] == [ProducerMoves];
    var s1 := Step(c, s, StartPush(v));
    var s2 := ProducerStep(c, s1);
    var s3 := ProducerStep(c, s2);
    var s4 := ProducerStep(c, s3);
    assert Run(c, s, e) == Run(c, s1, e[1..]) == Run(c, s2, e[1..][1..]) == Run(c, s3, e[1..][1..][1..]);
    assert Run(c, s3, e[1..][1..][1..]) == Run(c, s4, [ProducerMoves]) == Run(c, ProducerStep(c, s4), []);
  }
}
