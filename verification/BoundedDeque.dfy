/** What the overwriting ring is meant to be: a sequence of at most `capacity` values. */
module BoundedDeque {

  function PushBack<T>(capacity: nat, s: seq<T>, v: T): (r: seq<T>)
    requires 0 < capacity && |s| <= capacity
    ensures 0 < |r| <= capacity
  {
    if |s| == capacity then s[1..] + [v] else s + [v]
  }

  function PushFront<T>(capacity: nat, s: seq<T>, v: T): seq<T>
    requires 0 < capacity && |s| <= capacity
  {
    if |s| == capacity then [v] + s[..capacity - 1] else [v] + s
  }

  function PushAllBack<T>(capacity: nat, s: seq<T>, vs: seq<T>): (r: seq<T>)
    requires 0 < capacity && |s| <= capacity
    ensures |r| <= capacity
  {
    if vs == [] then s else PushBack(capacity, PushAllBack(capacity, s, vs[..|vs| - 1]), vs[|vs| - 1])
  }

  function Last<T>(s: seq<T>, n: nat): seq<T> {
    if |s| <= n then s else s[|s| - n..]
  }

  /** The latest n of the values, in order, or all if there are no more. */
  lemma LastExactly<T>(s: seq<T>, n: nat)
    ensures var r := Last(s, n);
            && |r| == (if |s| < n then |s| else n)
            && forall i :: 0 <= i < |r| ==> r[i] == s[|s| - |r| + i]
  {
  }

  lemma LastAll<T>(s: seq<T>, n: nat)
    requires |s| <= n
    ensures Last(s, n) == s
  {
  }

  lemma LastStep<T>(capacity: nat, s: seq<T>, v: T)
    requires 0 < capacity
    ensures PushBack(capacity, Last(s, capacity), v) == Last(s + [v], capacity)
  {
  }

  /** However many values are pushed, the ring holds the latest `capacity` of them. */
  lemma {:induction false} PushAllKeepsLast<T>(capacity: nat, s: seq<T>, vs: seq<T>)
    requires 0 < capacity && |s| <= capacity
    ensures PushAllBack(capacity, s, vs) == Last(s + vs, capacity)
  {
    hide PushBack, Last;
    if vs == [] {
      LastAll(s, capacity);
      assert s + vs == s;
    } else {
      var most := vs[..|vs| - 1];
      PushAllKeepsLast(capacity, s, most);
      LastStep(capacity, s + most, vs[|vs| - 1]);
      assert s + vs == (s + most) + [vs[|vs| - 1]];
    }
  }

  /** Pushing from the front is pushing the reversed values from the back. */
  function Reverse<T>(s: seq<T>): (r: seq<T>)
    ensures |r| == |s| && forall i :: 0 <= i < |s| ==> r[i] == s[|s| - 1 - i]
  {
    seq(|s|, i requires 0 <= i < |s| => s[|s| - 1 - i])
  }

  lemma FrontMirrorsBack<T>(capacity: nat, s: seq<T>, v: T)
    requires 0 < capacity && |s| <= capacity
    ensures PushFront(capacity, s, v) == Reverse(PushBack(capacity, Reverse(s), v))
  {
  }
}
