/**
 circular_buffer: the overwriting deque, with its slots constructed and destroyed in place.

 The object is the source's: a front index, a size and an array of slots, used at both ends. Its contents
 are the values of the live slots from the front on. Constructions and destructions are counted, so that
 the number of live slots is their difference; what pushing onto a full buffer does is said by the
 functions of BoundedDeque, and again outright.
 */
module CircularBuffer {
  import opened Wrappers
  import opened RingSlots
  import opened BoundedDeque

  class Buffer<T(==)> {
    const slots: array<Slot<T>>
    var front: nat
    var size: nat
    ghost var constructed: nat
    ghost var destroyed: nat

    /** Live slots are exactly those of the window; and every construction not undone is one of them. */
    ghost predicate Valid()
      reads this, slots
    {
      slots.Length > 0 && Window(slots[..], front, size) && constructed == destroyed + size
    }

    ghost function Contents(): (s: seq<T>)
      requires Valid()
      reads this, slots
      ensures |s| == size <= slots.Length
    {
      Values(slots[..], front, size)
    }

    function IndexOf(offset: nat): nat
      requires slots.Length > 0
      reads this
    {
      (front + offset) % slots.Length
    }

    constructor (capacity: nat)
      requires capacity > 0
      ensures Valid() && fresh(slots) && slots.Length == capacity && Contents() == []
    {
      slots := new Slot<T>[capacity](_ => Dead);
      front, size, constructed, destroyed := 0, 0, 0, 0;
      new;
      EmptyWindow(slots[..], 0);
    }

    /** construct_at: only a dead slot may be constructed ... */
    method Construct(i: nat, v: T)
      requires i < slots.Length && slots[i].Dead?
      modifies slots, `constructed
      ensures slots[..] == old(slots[..])[i := Live(v)] && constructed == old(constructed) + 1
    {
      slots[i] := Live(v);
      constructed := constructed + 1;
    }

    /** ... and destroy_at: only a live one destroyed. */
    method Destroy(i: nat)
      requires i < slots.Length && slots[i].Live?
      modifies slots, `destroyed
      ensures slots[..] == old(slots[..])[i := Dead] && destroyed == old(destroyed) + 1
    {
      slots[i] := Dead;
      destroyed := destroyed + 1;
    }

    method Clear()
      requires Valid()
      modifies this, slots
      ensures Valid() && Contents() == [] && front == 0
    {
      ghost var f, n, d := front, size, destroyed;
      for i := 0 to size
        invariant front == f && size == n && destroyed == d + i && constructed == old(constructed)
        invariant Window(slots[..], Wrap(f + i, slots.Length), n - i)
      {
        WrapIsMod(f + i, slots.Length);
        DropFront(slots[..], Wrap(f + i, slots.Length), n - i);
        Destroy(IndexOf(i));
      }
      front, size := 0, 0;
      EmptyWindow(slots[..], 0);
    }

    method At(i: nat) returns (v: T)
      requires Valid() && i < size
      ensures v == Contents()[i]
    {
      WrapIsMod(front + i, slots.Length);
      v := slots[IndexOf(i)].value;
    }

    method Front() returns (v: T)
      requires Valid() && size != 0
      ensures v == Contents()[0]
    {
      v := slots[front].value;
    }

    method Back() returns (v: T)
      requires Valid() && size != 0
      ensures v == Contents()[size - 1]
    {
      WrapIsMod(front + (size - 1), slots.Length);
      v := slots[IndexOf(size - 1)].value;
    }

    method PushBack(v: T)
      requires Valid()
      modifies this, slots
      ensures Valid() && Contents() == BoundedDeque.PushBack(slots.Length, old(Contents()), v)
      ensures Contents() == (if old(size) == slots.Length then old(Contents())[1..] else old(Contents())) + [v]
    {
      hide Window, Values, Wrap;
      FrontInRange(slots[..], front, size);
      WrapIsMod(front + size, slots.Length);
      var i := IndexOf(size);
      if size == slots.Length {
        TurnBack(slots[..], front, v);
        ghost var after := slots[..][i := Live(v)];
        Destroy(i);
        Construct(i, v);
        assert slots[..] == after;
        WrapIsMod(front + 1, slots.Length);
        front := (front + 1) % slots.Length;
      } else {
        AddBack(slots[..], front, size, v);
        Construct(i, v);
        size := size + 1;
      }
    }

    method PushFront(v: T)
      requires Valid()
      modifies this, slots
      ensures Valid() && Contents() == BoundedDeque.PushFront(slots.Length, old(Contents()), v)
      ensures Contents() == [v] + (if old(size) == slots.Length then old(Contents())[..old(size) - 1] else old(Contents()))
    {
      hide Window, Values, Wrap;
      FrontInRange(slots[..], front, size);
      WrapIsMod(front + slots.Length - 1, slots.Length);
      var i := (front + slots.Length - 1) % slots.Length;
      if size == slots.Length {
        TurnFront(slots[..], front, v);
        ghost var after := slots[..][i := Live(v)];
        Destroy(i);
        Construct(i, v);
        assert slots[..] == after;
      } else {
        AddFront(slots[..], front, size, v);
        Construct(i, v);
        size := size + 1;
      }
      front := i;
    }

    method TryPushBack(v: T) returns (r: bool)
      requires Valid()
      modifies this, slots
      ensures Valid() && (r <==> old(size) < slots.Length)
      ensures Contents() == if r then old(Contents()) + [v] else old(Contents())
    {
      if size == slots.Length { return false; }
      PushBack(v);
      return true;
    }

    method TryPushFront(v: T) returns (r: bool)
      requires Valid()
      modifies this, slots
      ensures Valid() && (r <==> old(size) < slots.Length)
      ensures Contents() == if r then [v] + old(Contents()) else old(Contents())
    {
      if size == slots.Length { return false; }
      PushFront(v);
      return true;
    }

    method PopFront()
      requires Valid() && size != 0
      modifies this, slots
      ensures Valid() && Contents() == old(Contents())[1..]
    {
      DropFront(slots[..], front, size);
      Destroy(front);
      WrapIsMod(front + 1, slots.Length);
      front := (front + 1) % slots.Length;
      size := size - 1;
    }

    method PopBack()
      requires Valid() && size != 0
      modifies this, slots
      ensures Valid() && Contents() == old(Contents())[..old(size) - 1]
    {
      WrapIsMod(front + (size - 1), slots.Length);
      DropBack(slots[..], front, size);
      Destroy(IndexOf(size - 1));
      size := size - 1;
    }

    method TryPopFront() returns (r: Option<T>)
      requires Valid()
      modifies this, slots
      ensures Valid()
      ensures old(Contents()) == [] ==> r == None && Contents() == []
      ensures old(Contents()) != [] ==> r == Some(old(Contents())[0]) && Contents() == old(Contents())[1..]
    {
      if size == 0 { return None; }
      r := Some(slots[front].value);
      PopFront();
    }

    method TryPopBack() returns (r: Option<T>)
      requires Valid()
      modifies this, slots
      ensures Valid()
      ensures old(Contents()) == [] ==> r == None && Contents() == []
      ensures old(size) > 0 ==> r == Some(old(Contents())[old(size) - 1]) && Contents() == old(Contents())[..old(size) - 1]
    {
      if size == 0 { return None; }
      WrapIsMod(front + (size - 1), slots.Length);
      r := Some(slots[IndexOf(size - 1)].value);
      PopBack();
    }

    method Fill(v: T)
      requires Valid()
      modifies this, slots
      ensures Valid() && size == slots.Length
      ensures forall i :: 0 <= i < size ==> Contents()[i] == v
    {
      Clear();
      for i := 0 to slots.Length
        invariant front == 0 && size == 0 && constructed == destroyed + i
        invariant Window(slots[..], 0, i)
        invariant forall j :: 0 <= j < i ==> slots[j] == Live(v)
      {
        AddBack(slots[..], 0, i, v);
        Construct(i, v);
      }
      size := slots.Length;
    }

    /** Both copy_construct_from and the first part of move_construct_from: the other's values, in
        order, into this empty buffer. */
    method ConstructFrom(other: Buffer<T>)
      requires Valid() && other.Valid() && size == 0 && front == 0
      requires this != other && slots != other.slots && slots.Length == other.slots.Length
      modifies this, slots
      ensures Valid() && other.Valid() && Contents() == other.Contents() == old(other.Contents())
    {
      ghost var all := other.Contents();
      for i := 0 to other.size
        invariant Valid() && size == i && front == 0
        invariant other.Valid() && other.Contents() == all
        invariant Contents() == all[..i]
      {
        WrapIsMod(other.front + i, other.slots.Length);
        AddBack(slots[..], 0, i, all[i]);
        Construct(i, other.slots[other.IndexOf(i)].value);
        size := size + 1;
      }
      assert all[..|all|] == all;
    }

    method AssignCopy(other: Buffer<T>)
      requires Valid() && other.Valid() && slots.Length == other.slots.Length
      requires this == other || slots != other.slots
      modifies this, slots
      ensures Valid() && Contents() == old(other.Contents())
      ensures this != other ==> other.Valid() && other.Contents() == old(other.Contents())
    {
      if this != other {
        Clear();
        ConstructFrom(other);
      }
    }

    method AssignMove(other: Buffer<T>)
      requires Valid() && other.Valid() && slots.Length == other.slots.Length
      requires this == other || slots != other.slots
      modifies this, slots, other, other.slots
      ensures Valid() && Contents() == old(other.Contents())
      ensures this != other ==> other.Valid() && other.Contents() == []
    {
      if this != other {
        Clear();
        ConstructFrom(other);
        other.Clear();
      }
    }
  }
}
