/**
 The liveness monitor that the RPDO consumer and the heartbeat consumer share: slots that are
 refreshed by receptions, and reported once when nothing came for their timeout.
 */
module SilenceMonitor {
  import opened Wrappers

  // The history of what happened to the slots is kept beside them, and says by itself what a report
  // may be.

  datatype Slot = Slot(id: Option<nat>, timeout: int, lastRx: int, fired: bool)

  datatype Event =
    | Configured(slot: nat, at: int, timeout: int)
    | Received(slot: nat, at: int)
    | AllReset(at: int)
    | Fired(slot: nat, at: int)

  /** What the history says of a slot: its timeout, when it was last refreshed, and whether it has
      been reported since. */
  datatype View = View(timeout: int, since: int, fired: bool)

  /** What one more event makes of slot j. */
  function After(v: View, e: Event, j: nat): View {
    match e
    case Configured(i, at, timeout) => if i == j then View(timeout, at, false) else v
    case Received(i, at) => if i == j then v.(since := at, fired := false) else v
    case AllReset(at) => v.(since := at, fired := false)
    case Fired(i, _) => if i == j then v.(fired := true) else v
  }

  function ViewOf(log: seq<Event>, j: nat): View {
    if log == [] then View(0, 0, false) else After(ViewOf(log[..|log| - 1], j), log[|log| - 1], j)
  }

  lemma ViewAppend(log: seq<Event>, e: Event, j: nat)
    ensures ViewOf(log + [e], j) == After(ViewOf(log, j), e, j)
  {
    assert (log + [e])[..|log|] == log;
  }

  /** A report is due: supervision is on, silence has lasted, and none was made in this silence. */
  predicate Due(v: View, now: int) {
    v.timeout != 0 && !v.fired && now - v.since >= v.timeout
  }

  /** Every report in the history was due when it was made. */
  ghost predicate WellFired(log: seq<Event>) {
    forall k :: 0 <= k < |log| && log[k].Fired? ==> Due(ViewOf(log[..k], log[k].slot), log[k].at)
  }

  /** An event that starts slot j's silence anew. */
  predicate Refreshes(e: Event, j: nat) {
    e.AllReset? || (e.Configured? && e.slot == j) || (e.Received? && e.slot == j)
  }

  /** Between any two reports of one slot there is a refresh ... */
  lemma FiresOncePerSilence(log: seq<Event>, k1: nat, k2: nat)
    requires WellFired(log) && k1 < k2 < |log|
    requires log[k1].Fired? && log[k2].Fired? && log[k1].slot == log[k2].slot
    ensures exists m :: k1 < m < k2 && Refreshes(log[m], log[k1].slot)
  {
    var j := log[k1].slot;
    if forall m :: k1 < m < k2 ==> !Refreshes(log[m], j) {
      ViewAppend(log[..k1], log[k1], j);
      assert log[..k1] + [log[k1]] == log[..k1 + 1];
      StaysFired(log, j, k1 + 1, k2);
    }
  }

  lemma {:induction false} StaysFired(log: seq<Event>, j: nat, k: nat, n: nat)
    requires k <= n <= |log| && ViewOf(log[..k], j).fired
    requires forall m :: k <= m < n ==> !Refreshes(log[m], j)
    ensures ViewOf(log[..n], j).fired
    decreases n - k
  {
    if k < n {
      StaysFired(log, j, k, n - 1);
      ViewAppend(log[..n - 1], log[n - 1], j);
      assert log[..n - 1] + [log[n - 1]] == log[..n];
    }
  }

  /** The setup of slot j in force at the end of a history ... */
  predicate LastSetup(log: seq<Event>, j: nat, c: nat) {
    && c < |log| && log[c].Configured? && log[c].slot == j
    && forall i :: c < i < |log| ==> !(log[i].Configured? && log[i].slot == j)
  }

  /** ... and the last event that started its silence anew. */
  predicate LastRefresh(log: seq<Event>, j: nat, m: nat) {
    m < |log| && Refreshes(log[m], j) && forall i :: m < i < |log| ==> !Refreshes(log[i], j)
  }

  predicate FiredAfter(log: seq<Event>, j: nat, m: nat) {
    exists k :: m < k < |log| && log[k].Fired? && log[k].slot == j
  }

  /** ... and no report comes before the timeout in force has passed since every earlier refresh
      that is not followed by another. */
  lemma FiresAfterTimeout(log: seq<Event>, c: nat, m: nat, k: nat)
    requires WellFired(log) && k < |log| && log[k].Fired?
    requires LastSetup(log[..k], log[k].slot, c) && LastRefresh(log[..k], log[k].slot, m)
    ensures log[k].at - log[m].at >= log[c].timeout != 0
  {
    TimeoutInForce(log[..k], log[k].slot, c);
    ViewSinceRefresh(log[..k], log[k].slot, m);
  }

  lemma {:induction false} TimeoutInForce(log: seq<Event>, j: nat, c: nat)
    requires LastSetup(log, j, c)
    ensures ViewOf(log, j).timeout == log[c].timeout
  {
    if c < |log| - 1 {
      TimeoutInForce(log[..|log| - 1], j, c);
    }
  }

  lemma {:induction false} ViewSinceRefresh(log: seq<Event>, j: nat, m: nat)
    requires LastRefresh(log, j, m)
    ensures ViewOf(log, j).since == log[m].at && (ViewOf(log, j).fired <==> FiredAfter(log, j, m))
  {
    if m < |log| - 1 {
      var most := log[..|log| - 1];
      ViewSinceRefresh(most, j, m);
      if FiredAfter(most, j, m) {
        var k :| m < k < |most| && most[k].Fired? && most[k].slot == j;
        assert log[k].Fired? && log[k].slot == j;
      }
    }
  }

  function CountFired(log: seq<Event>): nat {
    if log == [] then 0 else CountFired(log[..|log| - 1]) + if log[|log| - 1].Fired? then 1 else 0
  }

  lemma CountAppend(log: seq<Event>, e: Event)
    ensures CountFired(log + [e]) == CountFired(log) + if e.Fired? then 1 else 0
  {
    assert (log + [e])[..|log|] == log;
  }

  lemma WellFiredAppend(log: seq<Event>, e: Event)
    requires WellFired(log) && (e.Fired? ==> Due(ViewOf(log, e.slot), e.at))
    ensures WellFired(log + [e])
  {
    assert (log + [e])[..|log|] == log;
    assert forall k :: 0 <= k < |log| ==> (log + [e])[..k] == log[..k];
  }

  /** The reports a tick makes of the first n slots: of those that are due. */
  function Reports(log: seq<Event>, now: int, n: nat): seq<Event> {
    if n == 0 then []
    else Reports(log, now, n - 1) + if Due(ViewOf(log, n - 1), now) then [Fired(n - 1, now)] else []
  }

  lemma {:induction false} ReportsConcern(log: seq<Event>, now: int, n: nat, j: nat)
    requires n <= j
    ensures ViewOf(log + Reports(log, now, n), j) == ViewOf(log, j)
  {
    if n == 0 {
      assert log + [] == log;
    } else {
      ReportsConcern(log, now, n - 1, j);
      var r := Reports(log, now, n - 1);
      if Due(ViewOf(log, n - 1), now) {
        ViewAppend(log + r, Fired(n - 1, now), j);
        assert log + (r + [Fired(n - 1, now)]) == (log + r) + [Fired(n - 1, now)];
      } else {
        assert r + [] == r;
      }
    }
  }

  /** A slot is reported by a tick exactly when its report is due, and once, in the order of slots. */
  lemma {:induction false} ReportedExactlyWhenDue(log: seq<Event>, now: int, n: nat, j: nat)
    ensures var r := Reports(log, now, n);
            && (forall i :: 0 <= i < |r| ==> r[i].Fired? && r[i].slot < n)
            && (forall i, k :: 0 <= i < k < |r| ==> r[i].slot < r[k].slot)
    ensures Fired(j, now) in Reports(log, now, n) <==> j < n && Due(ViewOf(log, j), now)
    ensures forall e <- Reports(log, now, n) :: e.Fired? && e.at == now
  {
    if n > 0 {
      ReportedExactlyWhenDue(log, now, n - 1, j);
    }
  }

  /** When a report must come, read off the history: a tick reports slot j exactly when the timeout of
      its last setup is not zero, has passed since its last refresh (a setup, a reception or a reset of
      all), and no report has been made since then. */
  lemma ReportedExactlyWhenSilent(log: seq<Event>, now: int, n: nat, j: nat, c: nat, m: nat)
    requires j < n && LastSetup(log, j, c) && LastRefresh(log, j, m)
    ensures Fired(j, now) in Reports(log, now, n) <==>
            log[c].timeout != 0 && now - log[m].at >= log[c].timeout && !FiredAfter(log, j, m)
  {
    ReportedExactlyWhenDue(log, now, n, j);
    TimeoutInForce(log, j, c);
    ViewSinceRefresh(log, j, m);
  }

  /** A setup, a reception and a reset of all slots each start a silence of their own, whatever was
      reported before them. */
  lemma EachRestarts(log: seq<Event>, e: Event, at: int, now: int, n: nat, j: nat, c: nat)
    requires j < n && LastSetup(log + [e], j, c)
    requires e == AllReset(at) || e == Received(j, at) || (e.Configured? && e.slot == j && e.at == at)
    ensures Fired(j, now) in Reports(log + [e], now, n) <==>
            (log + [e])[c].timeout != 0 && now - at >= (log + [e])[c].timeout
  {
    ReportedExactlyWhenSilent(log + [e], now, n, j, c, |log|);
  }

  /** A slot that was never set up is never reported. */
  lemma {:induction false} NeverSetUp(log: seq<Event>, now: int, n: nat, j: nat)
    requires forall i :: 0 <= i < |log| ==> !(log[i].Configured? && log[i].slot == j)
    ensures Fired(j, now) !in Reports(log, now, n)
  {
    ReportedExactlyWhenDue(log, now, n, j);
    NoTimeout(log, j);
  }

  lemma {:induction false} NoTimeout(log: seq<Event>, j: nat)
    requires forall i :: 0 <= i < |log| ==> !(log[i].Configured? && log[i].slot == j)
    ensures ViewOf(log, j).timeout == 0
  {
    if log != [] {
      NoTimeout(log[..|log| - 1], j);
    }
  }

  /** There is a last setup exactly if there is one at all, and then there is a last refresh. */
  lemma {:induction false} LastsExist(log: seq<Event>, j: nat, i: nat) returns (c: nat, m: nat)
    requires i < |log| && log[i].Configured? && log[i].slot == j
    ensures i <= c <= m && LastSetup(log, j, c) && LastRefresh(log, j, m)
  {
    var n := |log| - 1;
    if i == n {
      c, m := n, n;
    } else {
      c, m := LastsExist(log[..n], j, i);
      c := if log[n].Configured? && log[n].slot == j then n else c;
      m := if Refreshes(log[n], j) then n else m;
    }
  }

  lemma {:induction false} CountReports(log: seq<Event>, now: int, n: nat)
    ensures CountFired(log + Reports(log, now, n)) == CountFired(log) + |Reports(log, now, n)|
  {
    if n == 0 {
      assert log + [] == log;
    } else {
      CountReports(log, now, n - 1);
      var r := Reports(log, now, n - 1);
      if Due(ViewOf(log, n - 1), now) {
        CountAppend(log + r, Fired(n - 1, now));
        assert log + (r + [Fired(n - 1, now)]) == (log + r) + [Fired(n - 1, now)];
      } else {
        assert r + [] == r;
      }
    }
  }

  /** The first slot with this identifier. */
  function FirstWith(slots: seq<Slot>, id: nat): (r: Option<nat>)
    ensures r.None? ==> forall j :: 0 <= j < |slots| ==> slots[j].id != Some(id)
    ensures r.Some? ==> r.value < |slots| && slots[r.value].id == Some(id)
    ensures r.Some? ==> forall j :: 0 <= j < r.value ==> slots[j].id != Some(id)
  {
    if slots == [] then None
    else
      match FirstWith(slots[..|slots| - 1], id)
      case Some(j) => Some(j)
      case None => if slots[|slots| - 1].id == Some(id) then Some(|slots| - 1) else None
  }

  class Monitor {
    const slots: array<Slot>
    ghost var log: seq<Event>

    /** Each slot is what the history says of it, and every report in the history was due. */
    ghost predicate Valid()
      reads this, slots
    {
      && WellFired(log)
      && (forall j :: 0 <= j < slots.Length ==> Agrees(slots[j], ViewOf(log, j)))
    }

    constructor (n: nat)
      ensures Valid() && fresh(slots) && slots.Length == n && log == []
      ensures forall j :: 0 <= j < n ==> slots[j].id.None?
    {
      slots := new Slot[n](_ => Slot(None, 0, 0, false));
      log := [];
    }

    method Configure(j: nat, id: nat, timeout: int, now: int)
      requires Valid() && j < slots.Length
      modifies this, slots
      ensures Valid() && log == old(log) + [Configured(j, now, timeout)]
      ensures slots[j].id == Some(id)
      ensures forall i :: 0 <= i < slots.Length && i != j ==> slots[i] == old(slots[i])
    {
      Views(log, Configured(j, now, timeout));
      slots[j] := Slot(Some(id), timeout, now, false);
      log := log + [Configured(j, now, timeout)];
    }

    /** Refreshes the first slot with this id, if the reception is accepted; says if there is one. */
    method Receive(id: nat, now: int, accept: bool) returns (found: bool)
      requires Valid()
      modifies this, slots
      ensures Valid()
      ensures forall j :: 0 <= j < slots.Length ==> slots[j].id == old(slots[j].id)
      ensures found <==> FirstWith(old(slots[..]), id).Some?
      ensures log == match FirstWith(old(slots[..]), id)
                     case Some(j) => if accept then old(log) + [Received(j, now)] else old(log)
                     case None => old(log)
    {
      for j := 0 to slots.Length
        invariant Valid() && log == old(log) && slots[..] == old(slots[..])
        invariant forall i :: 0 <= i < j ==> slots[i].id != Some(id)
      {
        if slots[j].id == Some(id) {
          if accept {
            Views(log, Received(j, now));
            slots[j] := slots[j].(lastRx := now, fired := false);
            log := log + [Received(j, now)];
          }
          return true;
        }
      }
      return false;
    }

    /** Reports exactly the slots that are due, each once and in order, and returns their number. */
    method Tick(now: int) returns (count: nat)
      requires Valid()
      modifies this, slots
      ensures Valid() && log == old(log) + Reports(old(log), now, slots.Length)
      ensures count == |Reports(old(log), now, slots.Length)|
      ensures forall j :: 0 <= j < slots.Length ==> slots[j].id == old(slots[j].id)
    {
      hide WellFired, ViewOf, Due;
      count := 0;
      for j := 0 to slots.Length
        invariant Valid() && log == old(log) + Reports(old(log), now, j)
        invariant count == |Reports(old(log), now, j)|
        invariant forall i :: 0 <= i < slots.Length ==> slots[i].id == old(slots[i].id)
      {
        ReportsConcern(old(log), now, j, j);
        var reported := TickSlot(j, now);
        assert log == old(log) + Reports(old(log), now, j + 1);
        if reported {
          count := count + 1;
        }
      }
    }

    /** The body of the tick's loop. */
    method TickSlot(j: nat, now: int) returns (reported: bool)
      requires Valid() && j < slots.Length
      modifies this, slots
      ensures Valid() && (reported <==> Due(ViewOf(old(log), j), now))
      ensures log == if reported then old(log) + [Fired(j, now)] else old(log)
      ensures forall i :: 0 <= i < slots.Length ==> slots[i].id == old(slots[i].id)
    {
      var s := slots[j];
      assert Agrees(s, ViewOf(log, j));
      if s.timeout == 0 || s.fired {
        return false;
      }
      if now - s.lastRx >= s.timeout {
        Views(log, Fired(j, now));
        slots[j] := s.(fired := true);
        log := log + [Fired(j, now)];
        return true;
      }
      return false;
    }

    method ResetAll(now: int)
      requires Valid()
      modifies this, slots
      ensures Valid() && log == old(log) + [AllReset(now)]
      ensures forall j :: 0 <= j < slots.Length ==> slots[j].id == old(slots[j].id)
    {
      Views(log, AllReset(now));
      for j := 0 to slots.Length
        invariant log == old(log)
        invariant forall i :: 0 <= i < j ==> slots[i] == old(slots[i]).(lastRx := now, fired := false)
        invariant forall i :: j <= i < slots.Length ==> slots[i] == old(slots[i])
      {
        slots[j] := slots[j].(lastRx := now, fired := false);
      }
      log := log + [AllReset(now)];
    }
  }

  predicate Agrees(s: Slot, v: View) {
    s.timeout == v.timeout && s.lastRx == v.since && s.fired == v.fired
  }

  /** One more event, seen by every slot. */
  lemma Views(log: seq<Event>, e: Event)
    requires WellFired(log)
    ensures forall j: nat :: ViewOf(log + [e], j) == After(ViewOf(log, j), e, j)
    ensures (e.Fired? ==> Due(ViewOf(log, e.slot), e.at)) ==> WellFired(log + [e])
  {
    forall j: nat {
      ViewAppend(log, e, j);
    }
    if e.Fired? ==> Due(ViewOf(log, e.slot), e.at) {
      WellFiredAppend(log, e);
    }
  }
}
