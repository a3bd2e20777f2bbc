/**
 The CANopen server's run loop (NMT state machine of section 7.3.2 of CiA 301): received frames
 are dispatched, then the RPDO and heartbeat monitors tick.
 */
module CanopenServer {
  import opened Wrappers
  import opened SilenceMonitor
  import Rx = IsrSpscQueue
  import SpscQueue

  // What the bus carries, the handlers of the application and the TPDO, SYNC, heartbeat and SDO
  // producers are outside this module.

  const SDO_REQUEST: nat := 0x600

  datatype NmtState = Initializing | Stopped | Operational | PreOperational

  datatype Command = Start | Stop | EnterPreOperational | ResetNode | ResetCommunication

  datatype Frame = Frame(id: nat, len: nat, payload: seq<bv8>)

  function DecodeCommand(f: Frame, nodeId: nat): Option<Command> {
    if f.len < 2 || |f.payload| < 2 then None
    else if f.payload[1] != 0 && f.payload[1] as nat != nodeId then None
    else
      match f.payload[0]
      case 0x01 => Some(Start)
      case 0x02 => Some(Stop)
      case 0x80 => Some(EnterPreOperational)
      case 0x81 => Some(ResetNode)
      case 0x82 => Some(ResetCommunication)
      case _ => None
  }

  function TargetState(c: Command): NmtState {
    match c
    case Start => Operational
    case Stop => Stopped
    case _ => PreOperational
  }

  /** The state a frame to NMT leads to. */
  function StateAfter(f: Frame, nodeId: nat, before: NmtState): NmtState {
    match DecodeCommand(f, nodeId)
    case None => before
    case Some(c) => TargetState(c)
  }

  /** ... by its bytes: a command byte, and the node it is for, 0 for all of them. */
  lemma CommandByBytes(f: Frame, nodeId: nat, before: NmtState)
    ensures f.len < 2 || |f.payload| < 2 ==> StateAfter(f, nodeId, before) == before
    ensures f.len >= 2 && |f.payload| >= 2 ==>
              StateAfter(f, nodeId, before) ==
              if f.payload[1] as nat !in {0, nodeId} then before
              else if f.payload[0] == 0x01 then Operational
              else if f.payload[0] == 0x02 then Stopped
              else if f.payload[0] in {0x80, 0x81, 0x82} then PreOperational
              else before
  {
  }

  /** A clock whose readings are given; nothing is assumed about their order. */
  class Clock {
    var readings: seq<int>
    var last: int

    constructor (readings: seq<int>)
      ensures this.readings == readings
    {
      this.readings := readings;
      last := 0;
    }

    function Peek(): int
      reads this
    {
      if readings == [] then last else readings[0]
    }

    method Now() returns (t: int)
      modifies this
      ensures t == old(Peek()) == last
      ensures readings == if old(readings) == [] then [] else old(readings)[1..]
    {
      if readings != [] {
        last, readings := readings[0], readings[1..];
      }
      t := last;
    }
  }

  // ---- received frames ----

  /** What a frame may change: the NMT state, both histories and the clock. */
  datatype Snapshot = Snapshot(state: NmtState, rpdo: seq<Event>, watches: seq<Event>, readings: seq<int>, last: int) {
    function Peek(): int {
      if readings == [] then last else readings[0]
    }

    /** After the clock has been read. */
    function Ticked(): Snapshot {
      this.(readings := if readings == [] then [] else readings[1..], last := Peek())
    }
  }

  /** One frame, with the slots and watches it may belong to. */
  function FrameStep(s: Snapshot, f: Frame, nodeId: nat, rpdos: seq<Slot>, watches: seq<Slot>): Snapshot {
    if f.id == 0 then
      var state := StateAfter(f, nodeId, s.state);
      if state == s.state then s
      else s.Ticked().(state := state, rpdo := s.rpdo + if state == Operational then [AllReset(s.Peek())] else [])
    else if f.id == SDO_REQUEST + nodeId then s
    else
      match FirstWith(rpdos, f.id)
      case Some(j) => s.Ticked().(rpdo := s.rpdo + if s.state == Operational then [Received(j, s.Peek())] else [])
      case None =>
        match FirstWith(watches, f.id)
        case Some(j) => s.Ticked().(watches := s.watches + [Received(j, s.Peek())])
        case None => s.Ticked()
  }

  function AllFrames(s: Snapshot, fs: seq<Frame>, nodeId: nat, rpdos: seq<Slot>, watches: seq<Slot>): Snapshot {
    if fs == [] then s
    else FrameStep(AllFrames(s, fs[..|fs| - 1], nodeId, rpdos, watches), fs[|fs| - 1], nodeId, rpdos, watches)
  }

  /** Frames take effect one after the other. */
  lemma {:induction false} FramesInOrder(s: Snapshot, a: seq<Frame>, b: seq<Frame>, nodeId: nat,
                                         rpdos: seq<Slot>, watches: seq<Slot>)
    ensures AllFrames(s, a + b, nodeId, rpdos, watches) ==
            AllFrames(AllFrames(s, a, nodeId, rpdos, watches), b, nodeId, rpdos, watches)
    ensures |b| == 1 ==> AllFrames(s, b, nodeId, rpdos, watches) == FrameStep(s, b[0], nodeId, rpdos, watches)
  {
    hide FrameStep;
    if b == [] {
      assert a + b == a;
    } else {
      FramesInOrder(s, a, b[..|b| - 1], nodeId, rpdos, watches);
      assert (a + b)[..|a + b| - 1] == a + b[..|b| - 1];
    }
  }

  /** A start command enters operational with new silences: an RPDO slot is then reported exactly when
      its whole timeout has passed since, whatever was received or reported before. */
  lemma SilentSinceStart(s: Snapshot, f: Frame, nodeId: nat, rpdos: seq<Slot>, watches: seq<Slot>,
                         now: int, n: nat, j: nat, c: nat)
    requires s.state != Operational && LastSetup(s.rpdo, j, c) && j < n
    requires f.id == 0 && f.len >= 2 && |f.payload| >= 2 && f.payload[0] == 0x01 && f.payload[1] as nat in {0, nodeId}
    ensures var s' := FrameStep(s, f, nodeId, rpdos, watches);
            && s'.state == Operational
            && (Fired(j, now) in Reports(s'.rpdo, now, n) <==>
                  s.rpdo[c].timeout != 0 && now - s.Peek() >= s.rpdo[c].timeout)
  {
    CommandByBytes(f, nodeId, s.state);
    var log := s.rpdo + [AllReset(s.Peek())];
    assert LastSetup(log, j, c) && log[c] == s.rpdo[c];
    EachRestarts(s.rpdo, AllReset(s.Peek()), s.Peek(), now, n, j, c);
  }

  predicate SameIds(a: seq<Slot>, b: seq<Slot>) {
    |a| == |b| && forall j :: 0 <= j < |a| ==> a[j].id == b[j].id
  }

  lemma {:induction false} SameFirst(a: seq<Slot>, b: seq<Slot>, id: nat)
    requires SameIds(a, b)
    ensures FirstWith(a, id) == FirstWith(b, id)
  {
    if a != [] {
      SameFirst(a[..|a| - 1], b[..|b| - 1], id);
    }
  }

  lemma FramesNone(s: Snapshot, nodeId: nat, rpdos: seq<Slot>, watches: seq<Slot>)
    ensures AllFrames(s, [], nodeId, rpdos, watches) == s
  {
  }

  lemma OneMoreFrame(s: Snapshot, fs: seq<Frame>, f: Frame, nodeId: nat, rpdos: seq<Slot>, watches: seq<Slot>)
    ensures AllFrames(s, fs + [f], nodeId, rpdos, watches) ==
            FrameStep(AllFrames(s, fs, nodeId, rpdos, watches), f, nodeId, rpdos, watches)
  {
    FramesInOrder(s, fs, [f], nodeId, rpdos, watches);
  }

  lemma FirstAsBefore(s: Snapshot, f: Frame, nodeId: nat, rpdos: seq<Slot>, rpdos0: seq<Slot>,
                      watches: seq<Slot>, watches0: seq<Slot>)
    requires SameIds(rpdos, rpdos0) && SameIds(watches, watches0)
    ensures FrameStep(s, f, nodeId, rpdos, watches) == FrameStep(s, f, nodeId, rpdos0, watches0)
  {
    hide SameIds, FirstWith;
    SameFirst(rpdos, rpdos0, f.id);
    SameFirst(watches, watches0, f.id);
  }

  /** The NMT state in which each event of the RPDO history happened allows it. */
  ghost predicate OnlyOperational(log: seq<Event>, states: seq<NmtState>) {
    && |states| == |log|
    && (forall k :: 0 <= k < |log| && (log[k].Received? || log[k].Fired?) ==> states[k] == Operational)
  }

  class Server {
    const nodeId: nat
    const clock: Clock
    const rx: Rx.Queue<Frame>
    const rpdo: Monitor
    const heartbeats: Monitor
    var state: NmtState
    var emcyAttempts: nat
    ghost var states: seq<NmtState>    // the state at each event of rpdo.log
    ghost var dispatched: seq<Frame>   // all frames dispatched so far

    ghost predicate Valid()
      reads this, rx, rx.slots, rpdo, rpdo.slots, heartbeats, heartbeats.slots
    {
      && rpdo != heartbeats && rpdo.slots != heartbeats.slots
      && rx.Valid() && rpdo.Valid() && heartbeats.Valid()
      && OnlyOperational(rpdo.log, states)
      && emcyAttempts == CountFired(rpdo.log)
    }

    ghost function Snap(): Snapshot
      reads this, clock, rpdo, heartbeats
    {
      Snapshot(state, rpdo.log, heartbeats.log, clock.readings, clock.last)
    }

    constructor (nodeId: nat, clock: Clock, rpdos: nat, watches: nat, rxConfig: SpscQueue.Config)
      requires rxConfig.Sound()
      ensures Valid() && this.nodeId == nodeId && this.clock == clock && state == PreOperational
      ensures fresh(rx) && fresh(rx.slots) && fresh(rpdo) && fresh(rpdo.slots)
      ensures fresh(heartbeats) && fresh(heartbeats.slots)
      ensures rpdo.log == [] && emcyAttempts == 0 && dispatched == []
    {
      this.nodeId := nodeId;
      this.clock := clock;
      rx := new Rx.Queue<Frame>(rxConfig);
      rpdo := new Monitor(rpdos);
      heartbeats := new Monitor(watches);
      state, emcyAttempts, states, dispatched := PreOperational, 0, [], [];
    }

    /** From the receive interrupt: a frame that finds the queue full is dropped. */
    method EnqueueRx(f: Frame)
      requires Valid()
      modifies rx, rx.slots
      ensures Valid()
      ensures rx.Contents() == old(rx.Contents()) + if |old(rx.Contents())| < rx.c.Capacity() then [f] else []
    {
      var taken := rx.TryEmplace(f);
    }

    /** Supervises a remote node: an existing watch on its identifier is set up anew, otherwise the
        next free one is taken, if there is one. */
    method WatchHeartbeat(id: nat, timeout: int) returns (r: bool)
      requires Valid()
      modifies clock, heartbeats, heartbeats.slots
      ensures Valid()
      ensures r <==> exists j :: 0 <= j < heartbeats.slots.Length
                                 && old(heartbeats.slots[j].id) in {Some(id), None}
      ensures !r ==> heartbeats.log == old(heartbeats.log)
      ensures r ==>
                exists j :: 0 <= j < heartbeats.slots.Length
                            && (if FirstWith(old(heartbeats.slots[..]), id).Some?
                                then FirstWith(old(heartbeats.slots[..]), id) == Some(j)
                                else old(heartbeats.slots[j].id) == None)
                            && heartbeats.slots[j].id == Some(id)
                            && (forall i :: 0 <= i < heartbeats.slots.Length && i != j ==>
                                  heartbeats.slots[i] == old(heartbeats.slots[i]))
                            && heartbeats.log == old(heartbeats.log) + [Configured(j, old(clock.Peek()), timeout)]
    {
      var now := clock.Now();
      for j := 0 to heartbeats.slots.Length
        invariant Valid() && heartbeats.log == old(heartbeats.log) && heartbeats.slots[..] == old(heartbeats.slots[..])
        invariant forall i :: 0 <= i < j ==> heartbeats.slots[i].id != Some(id)
      {
        if heartbeats.slots[j].id == Some(id) {
          heartbeats.Configure(j, id, timeout, now);
          return true;
        }
      }
      for j := 0 to heartbeats.slots.Length
        invariant Valid() && heartbeats.log == old(heartbeats.log) && heartbeats.slots[..] == old(heartbeats.slots[..])
        invariant forall i :: 0 <= i < j ==> heartbeats.slots[i].id != None
      {
        if heartbeats.slots[j].id == None {
          heartbeats.Configure(j, id, timeout, now);
          return true;
        }
      }
      return false;
    }

    method SetupRpdo(i: nat, id: nat, timeout: int)
      requires Valid() && i < rpdo.slots.Length
      modifies this, clock, rpdo, rpdo.slots
      ensures Valid() && state == old(state)
      ensures rpdo.log == old(rpdo.log) + [Configured(i, old(clock.Peek()), timeout)]
      ensures rpdo.slots[i].id == Some(id)
      ensures forall j :: 0 <= j < rpdo.slots.Length && j != i ==> rpdo.slots[j] == old(rpdo.slots[j])
      ensures emcyAttempts == old(emcyAttempts) && dispatched == old(dispatched)
    {
      var now := clock.Now();
      CountAppend(rpdo.log, Configured(i, now, timeout));
      rpdo.Configure(i, id, timeout, now);
      states := states + [state];
    }

    /** A change of state; entering operational starts all RPDO silences anew. */
    method ApplyNmtState(s: NmtState)
      requires Valid()
      modifies this, clock, rpdo, rpdo.slots
      ensures Valid() && state == s && emcyAttempts == old(emcyAttempts) && dispatched == old(dispatched)
      ensures rpdo.log == old(rpdo.log) +
                if s != old(state) && s == Operational then [AllReset(old(clock.Peek()))] else []
      ensures rx.State() == old(rx.State()) && SameIds(rpdo.slots[..], old(rpdo.slots[..]))
      ensures clock.readings == if s == old(state) || old(clock.readings) == [] then old(clock.readings)
                                else old(clock.readings)[1..]
      ensures clock.last == if s == old(state) then old(clock.last) else old(clock.Peek())
    {
      hide CountFired, WellFired, ViewOf, SpscQueue.Inv;
      if s == state { return; }
      state := s;
      var now := clock.Now();
      if s == Operational {
        CountAppend(rpdo.log, AllReset(now));
        rpdo.ResetAll(now);
        states := states + [state];
      }
    }

    method HandleNmtCommand(f: Frame)
      requires Valid()
      modifies this, clock, rpdo, rpdo.slots
      ensures Valid() && rx.State() == old(rx.State()) && SameIds(rpdo.slots[..], old(rpdo.slots[..]))
      ensures emcyAttempts == old(emcyAttempts) && dispatched == old(dispatched)
      ensures state == StateAfter(f, nodeId, old(state))
      ensures clock.readings == if state == old(state) || old(clock.readings) == [] then old(clock.readings)
                                else old(clock.readings)[1..]
      ensures clock.last == if state == old(state) then old(clock.last) else old(clock.Peek())
      ensures rpdo.log == old(rpdo.log) +
                if state != old(state) && state == Operational then [AllReset(old(clock.Peek()))] else []
    {
      var c := DecodeCommand(f, nodeId);
      if c.Some? {
        ApplyNmtState(TargetState(c.value));
      }
    }

    /** Outside operational an RPDO frame is consumed without effect. */
    method Dispatch(f: Frame)
      requires Valid()
      modifies this, clock, rpdo, rpdo.slots, heartbeats, heartbeats.slots
      ensures Valid() && rx.State() == old(rx.State()) && emcyAttempts == old(emcyAttempts)
      ensures dispatched == old(dispatched) + [f]
      ensures SameIds(rpdo.slots[..], old(rpdo.slots[..])) && SameIds(heartbeats.slots[..], old(heartbeats.slots[..]))
      ensures Snap() == FrameStep(old(Snap()), f, nodeId, old(rpdo.slots[..]), old(heartbeats.slots[..]))
      ensures state == if f.id == 0 then StateAfter(f, nodeId, old(state)) else old(state)
      ensures f.id == 0 ==>
                && heartbeats.log == old(heartbeats.log)
                && rpdo.log == old(rpdo.log) +
                     if state != old(state) && state == Operational then [AllReset(old(clock.Peek()))] else []
      ensures f.id == 0x600 + nodeId ==> rpdo.log == old(rpdo.log) && heartbeats.log == old(heartbeats.log)
      ensures f.id != 0 && f.id != 0x600 + nodeId ==>
                var (j, w) := (FirstWith(old(rpdo.slots[..]), f.id), FirstWith(old(heartbeats.slots[..]), f.id));
                && rpdo.log == old(rpdo.log) +
                     (if j.Some? && state == Operational then [Received(j.value, old(clock.Peek()))] else [])
                && heartbeats.log == old(heartbeats.log) +
                     (if j.None? && w.Some? then [Received(w.value, old(clock.Peek()))] else [])
    {
      hide CountFired, WellFired, ViewOf, StateAfter, FirstWith;
      dispatched := dispatched + [f];
      if f.id == 0 {
        HandleNmtCommand(f);
      } else if f.id != SDO_REQUEST + nodeId {
        Refresh(f);
      }
    }

    /** A frame for the RPDO slots, or else for the watches. */
    method Refresh(f: Frame)
      requires Valid()
      modifies this, clock, rpdo, rpdo.slots, heartbeats, heartbeats.slots
      ensures Valid() && rx.State() == old(rx.State()) && emcyAttempts == old(emcyAttempts)
      ensures dispatched == old(dispatched) && state == old(state)
      ensures SameIds(rpdo.slots[..], old(rpdo.slots[..])) && SameIds(heartbeats.slots[..], old(heartbeats.slots[..]))
      ensures var (j, w) := (FirstWith(old(rpdo.slots[..]), f.id), FirstWith(old(heartbeats.slots[..]), f.id));
              && rpdo.log == old(rpdo.log) +
                   (if j.Some? && state == Operational then [Received(j.value, old(clock.Peek()))] else [])
              && heartbeats.log == old(heartbeats.log) +
                   (if j.None? && w.Some? then [Received(w.value, old(clock.Peek()))] else [])
      ensures clock.readings == if old(clock.readings) == [] then [] else old(clock.readings)[1..]
      ensures clock.last == old(clock.Peek())
    {
      hide CountFired, WellFired, ViewOf, FirstWith;
      var now := clock.Now();
      ghost var before := rpdo.log;
      var found := rpdo.Receive(f.id, now, state == Operational);
      if rpdo.log != before {
        CountAppend(before, rpdo.log[|before|]);
        states := states + [state];
      }
      if !found {
        found := heartbeats.Receive(f.id, now, true);
      }
    }

    method Emit()
      modifies `emcyAttempts
      ensures emcyAttempts == old(emcyAttempts) + 1
    {
      emcyAttempts := emcyAttempts + 1;
    }

    /** The first part of a pass: all received frames are dispatched, in order, which reports nothing. */
    method DispatchReceived()
      requires Valid()
      modifies this, clock, rx, rx.slots, rpdo, rpdo.slots, heartbeats, heartbeats.slots
      ensures Valid() && rx.Contents() == [] && emcyAttempts == old(emcyAttempts)
      ensures dispatched == old(dispatched) + old(rx.Contents())
      ensures Snap() == AllFrames(old(Snap()), old(rx.Contents()), nodeId, old(rpdo.slots[..]), old(heartbeats.slots[..]))
      ensures |old(rpdo.log)| <= |rpdo.log| && rpdo.log[..|old(rpdo.log)|] == old(rpdo.log)
    {
      hide CountFired, WellFired, ViewOf, SpscQueue.Inv, FrameStep, FirstWith, StateAfter, AllFrames;
      ghost var (rpdos, watches, done) := (rpdo.slots[..], heartbeats.slots[..], []);
      var frame := rx.TryPop();
      assert AllFrames(Snap(), done, nodeId, rpdos, watches) == Snap() by { FramesNone(Snap(), nodeId, rpdos, watches); }
      while frame.Some?
        invariant Valid() && emcyAttempts == old(emcyAttempts)
        invariant SameIds(rpdo.slots[..], rpdos) && SameIds(heartbeats.slots[..], watches)
        invariant Snap() == AllFrames(old(Snap()), done, nodeId, rpdos, watches)
        invariant dispatched == old(dispatched) + done
        invariant frame.None? ==> rx.Contents() == [] && done == old(rx.Contents())
        invariant frame.Some? ==> done + [frame.value] + rx.Contents() == old(rx.Contents())
        invariant |old(rpdo.log)| <= |rpdo.log| && rpdo.log[..|old(rpdo.log)|] == old(rpdo.log)
        decreases |rx.Contents()|, if frame.Some? then 1 else 0
      {
        OneMoreFrame(old(Snap()), done, frame.value, nodeId, rpdos, watches);
        DispatchAs(frame.value, rpdos, watches);
        done := done + [frame.value];
        frame := rx.TryPop();
      }
    }

    /** Dispatch as one step of a run in which slots and watches keep their identifiers. */
    method DispatchAs(f: Frame, ghost rpdos: seq<Slot>, ghost watches: seq<Slot>)
      requires Valid() && SameIds(rpdo.slots[..], rpdos) && SameIds(heartbeats.slots[..], watches)
      modifies this, clock, rpdo, rpdo.slots, heartbeats, heartbeats.slots
      ensures Valid() && rx.State() == old(rx.State()) && emcyAttempts == old(emcyAttempts)
      ensures SameIds(rpdo.slots[..], rpdos) && SameIds(heartbeats.slots[..], watches)
      ensures dispatched == old(dispatched) + [f]
      ensures Snap() == FrameStep(old(Snap()), f, nodeId, rpdos, watches)
      ensures |old(rpdo.log)| <= |rpdo.log| && rpdo.log[..|old(rpdo.log)|] == old(rpdo.log)
    {
      hide CountFired, WellFired, ViewOf, SpscQueue.Inv, FrameStep, FirstWith, StateAfter;
      FirstAsBefore(Snap(), f, nodeId, rpdo.slots[..], rpdos, heartbeats.slots[..], watches);
      Dispatch(f);
    }

    /** One pass: after the dispatch, if the server is operational, exactly the RPDO slots due at the
        time the pass began are reported, with one emergency message each, and in any state exactly
        the watches due. n and h are the lengths of the two histories before the reports. */
    method Run() returns (ghost now: int, ghost n: nat, ghost h: nat)
      requires Valid()
      modifies this, clock, rx, rx.slots, rpdo, rpdo.slots, heartbeats, heartbeats.slots
      ensures Valid() && rx.Contents() == []
      ensures now == old(clock.Peek()) && dispatched == old(dispatched) + old(rx.Contents())
      ensures |old(rpdo.log)| <= n <= |rpdo.log| && h <= |heartbeats.log|
      ensures var s := AllFrames(old(Snap().Ticked()), old(rx.Contents()), nodeId,
                                 old(rpdo.slots[..]), old(heartbeats.slots[..]));
              && state == s.state && clock.readings == s.readings && clock.last == s.last
              && rpdo.log[..n] == s.rpdo && heartbeats.log[..h] == s.watches
      ensures rpdo.log[..|old(rpdo.log)|] == old(rpdo.log)
      ensures CountFired(rpdo.log[..n]) == CountFired(old(rpdo.log))
      ensures rpdo.log[n..] ==
              if state == Operational then Reports(rpdo.log[..n], now, rpdo.slots.Length) else []
      ensures emcyAttempts == old(emcyAttempts) + |rpdo.log| - n
      ensures heartbeats.log[h..] == Reports(heartbeats.log[..h], now, heartbeats.slots.Length)
    {
      hide CountFired, WellFired, ViewOf, SpscQueue.Inv, AllFrames;
      var start := clock.Now();
      DispatchReceived();
      now, n, h := start, |rpdo.log|, |heartbeats.log|;
      ghost var before, watched := rpdo.log, heartbeats.log;
      TickRpdo(start);
      assert rpdo.log[..n] == before;
      var lost := heartbeats.Tick(start);
      assert heartbeats.log[..h] == watched;
    }

    /** The RPDO tick with its emergency messages. */
    method TickRpdo(now: int)
      requires Valid()
      modifies this, rpdo, rpdo.slots
      ensures Valid() && state == old(state)
      ensures rpdo.log == old(rpdo.log) +
                if state == Operational then Reports(old(rpdo.log), now, rpdo.slots.Length) else []
      ensures emcyAttempts == old(emcyAttempts) + |rpdo.log| - |old(rpdo.log)| && dispatched == old(dispatched)
    {
      if state != Operational { return; }
      ghost var before := rpdo.log;
      CountReports(before, now, rpdo.slots.Length);
      var timedOut := rpdo.Tick(now);
      states := states + seq(timedOut, _ => Operational);
      for i := 0 to timedOut
        modifies `emcyAttempts
        invariant emcyAttempts == old(emcyAttempts) + i
      {
        Emit();
      }
    }
  }
}
