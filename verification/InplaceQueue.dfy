/**
 inplace_queue: the bounded FIFO, with its slots constructed and destroyed in place.

 The object is the source's: a front index, a size and an array of slots. Its contents are the values of
 the live slots from the front on. A slot is constructed only while dead and destroyed only while live,
 which the array of slots records; copies and moves between two queues are proved for self-assignment
 as well.
 */
module InplaceQueue {
  import opened Wrappers
  import opened RingSlots

  class Queue<T(==)> {
    const slots: array<Slot<T>>
    var front: nat
    var size: nat

    ghost predicate Valid()
      reads this, slots
    {
      slots.Length > 0 && Window(slots[..], front, size)
    }

    ghost function Contents(): (s: seq<T>)
      requires Valid()
      reads this, slots
      ensures |s| == size <= slots.Length
    {
      Values(slots[..], front, size)
    }

    function IndexOf(offset: nat): nat
      requires slots.Length > 0
      reads this
    {
      (front + offset) % slots.Length
    }

    constructor (capacity: nat)
      requires capacity > 0
      ensures Valid() && fresh(slots) && slots.Length == capacity && Contents() == []
    {
      slots := new Slot<T>[capacity](_ => Dead);
      front, size := 0, 0;
      new;
      EmptyWindow(slots[..], 0);
    }

    method Clear()
      requires Valid()
      modifies this, slots
      ensures Valid() && Contents() == [] && front == 0
    {
      ghost var f, n := front, size;
      for i := 0 to size
        invariant front == f && size == n
        invariant Window(slots[..], Wrap(f + i, slots.Length), n - i)
      {
        WrapIsMod(f + i, slots.Length);
        DropFront(slots[..], Wrap(f + i, slots.Length), n - i);
        slots[IndexOf(i)] := Dead;
      }
      front, size := 0, 0;
      EmptyWindow(slots[..], 0);
    }

    method Front() returns (v: T)
      requires Valid() && size != 0
      ensures v == Contents()[0]
    {
      v := slots[front].value;
    }

    method Back() returns (v: T)
      requires Valid() && size != 0
      ensures v == Contents()[size - 1]
    {
      WrapIsMod(front + (size - 1), slots.Length);
      v := slots[IndexOf(size - 1)].value;
    }

    method Push(v: T)
      requires Valid() && size != slots.Length
      modifies this, slots
      ensures Valid() && Contents() == old(Contents()) + [v]
    {
      WrapIsMod(front + size, slots.Length);
      AddBack(slots[..], front, size, v);
      slots[IndexOf(size)] := Live(v);
      size := size + 1;
    }

    method TryPush(v: T) returns (r: bool)
      requires Valid()
      modifies this, slots
      ensures Valid() && (r <==> old(size) < slots.Length)
      ensures Contents() == if r then old(Contents()) + [v] else old(Contents())
    {
      if size == slots.Length { return false; }
      Push(v);
      return true;
    }

    method Pop()
      requires Valid() && size != 0
      modifies this, slots
      ensures Valid() && Contents() == old(Contents())[1..] && size == old(size) - 1
    {
      DropFront(slots[..], front, size);
      slots[front] := Dead;
      WrapIsMod(front + 1, slots.Length);
      front := (front + 1) % slots.Length;
      size := size - 1;
    }

    method TryPop() returns (r: Option<T>)
      requires Valid()
      modifies this, slots
      ensures Valid()
      ensures old(Contents()) == [] ==> r == None && Contents() == []
      ensures old(Contents()) != [] ==> r == Some(old(Contents())[0]) && Contents() == old(Contents())[1..]
    {
      if size == 0 { return None; }
      r := Some(slots[front].value);
      Pop();
    }

    method ConstructFrom(other: Queue<T>)
      requires Valid() && other.Valid() && size == 0 && front == 0
      requires this != other && slots != other.slots && slots.Length == other.slots.Length
      modifies this, slots
      ensures Valid() && other.Valid() && Contents() == other.Contents() == old(other.Contents())
    {
      ghost var all := other.Contents();
      for i := 0 to other.size
        invariant Valid() && size == i && front == 0
        invariant other.Valid() && other.Contents() == all
        invariant Contents() == all[..i]
      {
        WrapIsMod(other.front + i, other.slots.Length);
        AddBack(slots[..], 0, i, all[i]);
        slots[i] := Live(other.slots[other.IndexOf(i)].value);
        size := size + 1;
      }
      assert all[..|all|] == all;
    }

    method AssignCopy(other: Queue<T>)
      requires Valid() && other.Valid() && slots.Length == other.slots.Length
      requires this == other || slots != other.slots
      modifies this, slots
      ensures Valid() && Contents() == old(other.Contents())
      ensures this != other ==> other.Valid() && other.Contents() == old(other.Contents())
    {
      if this != other {
        Clear();
        ConstructFrom(other);
      }
    }

    method AssignMove(other: Queue<T>)
      requires Valid() && other.Valid() && slots.Length == other.slots.Length
      requires this == other || slots != other.slots
      modifies this, slots, other, other.slots
      ensures Valid() && Contents() == old(other.Contents())
      ensures this != other ==> other.Valid() && other.Contents() == []
    {
      if this != other {
        Clear();
        ConstructFrom(other);
        other.Clear();
      }
    }
  }
}
