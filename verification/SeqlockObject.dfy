/**
 The sequence lock objects: counter and value, with the source's methods run without
 interruption. Their states are idle states of the machine in Seqlock, and a store is one of
 its complete stores.
 */
module SeqlockObject {
  import opened WordArith
  import opened Seqlock

  class Lock<W> {
    const c: Config
    var seqNo: nat
    const value: array<W>
    ghost var history: seq<Value<W>>

    ghost function State(): Seqlock.State<W>
      reads this, value
    {
      Seqlock.State(seqNo, value[..], WriterIdle, [], history, |history| - (if history == [] then 0 else 1))
    }

    ghost predicate Valid()
      reads this, value
    {
      c.Valid() && Inv(c, State())
    }

    constructor (c: Config, initial: Value<W>)
      requires c.Valid() && |initial| == c.words
      ensures Valid() && fresh(value) && this.c == c && value[..] == initial && history == [initial]
    {
      this.c := c;
      seqNo := 0;
      value := new W[|initial|](i requires 0 <= i < |initial| => initial[i]);
      history := [initial];
      new;
      InitInv(c, initial, 0);
      assert value[..] == initial;
    }

    /** memcpy into the shared value, a word at a time. */
    method CopyIn(desired: Value<W>)
      requires |desired| == value.Length
      modifies value
      ensures value[..] == desired
    {
      for i := 0 to value.Length
        invariant value[..i] == desired[..i]
      {
        value[i] := desired[i];
      }
    }

    method CopyOut() returns (snapshot: Value<W>)
      ensures snapshot == value[..]
    {
      snapshot := [];
      for i := 0 to value.Length
        invariant snapshot == value[..i]
      {
        snapshot := snapshot + [value[i]];
      }
    }

    method Store(desired: Value<W>)
      requires Valid() && |desired| == c.words
      modifies this, value
      ensures Valid()
      ensures value[..] == desired && history == old(history) + [desired]
      ensures State() == Run(c, old(State()), OneStore(c, desired))
    {
      StoreAlone(c, State(), desired);
      RunKeepsInv(c, State(), OneStore(c, desired));
      var s := seqNo;
      seqNo := c.Next(s, 1);
      CopyIn(desired);
      seqNo := c.Next(s, 2);
      history := history + [desired];
    }

    method Update(f: Value<W> -> Value<W>)
      requires Valid() && forall v :: |v| == c.words ==> |f(v)| == c.words
      modifies this, value
      ensures Valid()
      ensures value[..] == f(old(value[..])) && history == old(history) + [value[..]]
    {
      ghost var desired := f(value[..]);
      StoreAlone(c, State(), desired);
      RunKeepsInv(c, State(), OneStore(c, desired));
      var s := seqNo;
      seqNo := c.Next(s, 1);
      var snapshot := CopyOut();
      CopyIn(f(snapshot));
      seqNo := c.Next(s, 2);
      history := history + [value[..]];
    }

    /** seqlock's load: an odd counter is tested before the copy. */
    method Load() returns (snapshot: Value<W>)
      requires Valid()
      ensures snapshot == value[..] == Latest(State())
    {
      WrapParity(Unwrapped(State()), c.half);
      snapshot := [];
      var done := false;
      while !done
        invariant done ==> snapshot == value[..]
        decreases if done then 0 else 1
      {
        var s1 := seqNo;
        if s1 % 2 == 0 {
          snapshot := CopyOut();
          var s2 := seqNo;
          done := s1 == s2;
        }
      }
    }

    /** isr_seqlock's load: one test after the copy. */
    method LoadTestingLast() returns (snapshot: Value<W>)
      requires Valid()
      ensures snapshot == value[..] == Latest(State())
    {
      WrapParity(Unwrapped(State()), c.half);
      var retry := true;
      snapshot := [];
      while retry
        invariant !retry ==> snapshot == value[..]
        decreases if retry then 1 else 0
      {
        var s1 := seqNo;
        snapshot := CopyOut();
        var s2 := seqNo;
        retry := s1 != s2 || s1 % 2 == 1;
      }
    }
  }
}
