/**
 Storage shared by the ring containers: an array of slots of which those from `front` on, for
 `size` places and wrapping at the end, are live. The lemmas say what constructing or destroying
 at either end does to the sequence of live values.

 The windows of live slots are told apart by how far each slot is from the front, going round, which
 needs no division; that the source's remainders agree with it is one lemma.
 */
module RingSlots {
  import opened WordArith

  datatype Slot<T> = Dead | Live(value: T)

  /** The remainder of a sum of two indices. */
  function Wrap(x: nat, capacity: nat): nat {
    if x < capacity then x else x - capacity
  }

  lemma WrapIsMod(x: nat, capacity: nat)
    requires x < 2 * capacity
    ensures x % capacity == Wrap(x, capacity) < capacity
  {
    ModUnique(x, capacity, if x < capacity then 0 else 1, Wrap(x, capacity));
  }

  /** How far slot j is from the front, going round. */
  function Offset(front: nat, j: nat, capacity: nat): int {
    if front <= j then j - front else j - front + capacity
  }

  /** Exactly the slots (front + i) mod capacity, for i below size, are live. */
  predicate Window<T(==)>(slots: seq<Slot<T>>, front: nat, size: nat) {
    && front < |slots| && size <= |slots|
    && (forall j :: 0 <= j < |slots| ==> (slots[j].Live? <==> Offset(front, j, |slots|) < size))
  }

  lemma PlaceOffset(front: nat, i: nat, capacity: nat)
    requires front < capacity && i < capacity
    ensures Wrap(front + i, capacity) < capacity && Offset(front, Wrap(front + i, capacity), capacity) == i
  {
  }

  function ValueAt<T>(slots: seq<Slot<T>>, front: nat, size: nat, i: nat): T
    requires Window(slots, front, size) && i < size
  {
    var j := Wrap(front + i, |slots|);
    assert Offset(front, j, |slots|) == i;
    slots[j].value
  }

  function Values<T>(slots: seq<Slot<T>>, front: nat, size: nat): (v: seq<T>)
    requires Window(slots, front, size)
    ensures |v| == size
    ensures forall i :: 0 <= i < size ==> v[i] == ValueAt(slots, front, size, i)
  {
    seq(size, i requires 0 <= i < size => ValueAt(slots, front, size, i))
  }

  lemma AddBack<T>(slots: seq<Slot<T>>, front: nat, size: nat, v: T)
    requires Window(slots, front, size) && size < |slots|
    ensures var i := Wrap(front + size, |slots|);
            && i < |slots| && slots[i].Dead?
            && Window(slots[i := Live(v)], front, size + 1)
            && Values(slots[i := Live(v)], front, size + 1) == Values(slots, front, size) + [v]
  {
    PlaceOffset(front, size, |slots|);
  }

  lemma AddFront<T>(slots: seq<Slot<T>>, front: nat, size: nat, v: T)
    requires Window(slots, front, size) && size < |slots|
    ensures var i := Wrap(front + |slots| - 1, |slots|);
            && i < |slots| && slots[i].Dead?
            && Window(slots[i := Live(v)], i, size + 1)
            && Values(slots[i := Live(v)], i, size + 1) == [v] + Values(slots, front, size)
  {
    var i := Wrap(front + |slots| - 1, |slots|);
    PlaceOffset(front, |slots| - 1, |slots|);
    assert Window(slots[i := Live(v)], i, size + 1);
  }

  lemma DropFront<T>(slots: seq<Slot<T>>, front: nat, size: nat)
    requires Window(slots, front, size) && size > 0
    ensures slots[front] == Live(Values(slots, front, size)[0])
    ensures var f := Wrap(front + 1, |slots|);
            && Window(slots[front := Dead], f, size - 1)
            && Values(slots[front := Dead], f, size - 1) == Values(slots, front, size)[1..]
  {
    var f := Wrap(front + 1, |slots|);
    assert Window(slots[front := Dead], f, size - 1);
  }

  lemma DropBack<T>(slots: seq<Slot<T>>, front: nat, size: nat)
    requires Window(slots, front, size) && size > 0
    ensures var i := Wrap(front + size - 1, |slots|);
            && i < |slots| && slots[i] == Live(Values(slots, front, size)[size - 1])
            && Window(slots[i := Dead], front, size - 1)
            && Values(slots[i := Dead], front, size - 1) == Values(slots, front, size)[..size - 1]
  {
    PlaceOffset(front, size - 1, |slots|);
  }

  lemma FrontInRange<T>(slots: seq<Slot<T>>, front: nat, size: nat)
    requires Window(slots, front, size)
    ensures front < |slots| && size <= |slots|
  {
  }

  lemma EmptyWindow<T>(slots: seq<Slot<T>>, front: nat)
    requires front < |slots| && forall j :: 0 <= j < |slots| ==> slots[j].Dead?
    ensures Window(slots, front, 0)
  {
  }

  /** Writing over the oldest value of a full ring. */
  lemma TurnBack<T>(slots: seq<Slot<T>>, front: nat, v: T)
    requires Window(slots, front, |slots|)
    ensures Wrap(front + |slots|, |slots|) == front && slots[front].Live?
    ensures var f := Wrap(front + 1, |slots|);
            && Window(slots[front := Live(v)], f, |slots|)
            && Values(slots[front := Live(v)], f, |slots|) == Values(slots, front, |slots|)[1..] + [v]
  {
    DropFront(slots, front, |slots|);
    var once := slots[front := Dead];
    AddBack(once, Wrap(front + 1, |slots|), |slots| - 1, v);
    assert once[front := Live(v)] == slots[front := Live(v)];
  }

  /** Writing over the newest value of a full ring, from the front. */
  lemma TurnFront<T>(slots: seq<Slot<T>>, front: nat, v: T)
    requires Window(slots, front, |slots|)
    ensures var f := Wrap(front + |slots| - 1, |slots|);
            && f < |slots| && slots[f].Live?
            && Window(slots[f := Live(v)], f, |slots|)
            && Values(slots[f := Live(v)], f, |slots|) == [v] + Values(slots, front, |slots|)[..|slots| - 1]
  {
    var f := Wrap(front + |slots| - 1, |slots|);
    DropBack(slots, front, |slots|);
    var once := slots[f := Dead];
    AddFront(once, front, |slots| - 1, v);
    assert once[f := Live(v)] == slots[f := Live(v)];
  }
}
