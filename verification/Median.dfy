/** median_filter: the middle of the sorted window, for any type with an order. */
module Median {
  import opened BoundedDeque
  import opened CircularBuffer
  import opened RingSlots
  import opened Sorting

  /** However the window is sorted, this is the result. */
  lemma OneSorting<T(!new)>(less: Order<T>, window: seq<T>, s: seq<T>)
    requires StrictWeak(less) && Separates(less, s)
    requires Ascending(less, s) && multiset(s) == multiset(window)
    ensures s == Sorted(less, window)
  {
    SortedAscending(less, window);
    SortedUnique(less, s, Sorted(less, window));
  }

  // ---- counting ----

  predicate Between<T>(less: Order<T>, lo: T, x: T, hi: T) {
    !less(x, lo) && !less(hi, x)
  }

  function CountIn<T>(less: Order<T>, s: seq<T>, lo: T, hi: T): (n: nat)
    ensures n <= |s|
  {
    if s == [] then 0 else (if Between(less, lo, s[0], hi) then 1 else 0) + CountIn(less, s[1..], lo, hi)
  }

  /** The values not above x ... */
  function CountUpTo<T>(less: Order<T>, s: seq<T>, x: T): (n: nat)
    ensures n <= |s|
  {
    if s == [] then 0 else (if !less(x, s[0]) then 1 else 0) + CountUpTo(less, s[1..], x)
  }

  /** ... and those not below it. */
  function CountFrom<T>(less: Order<T>, s: seq<T>, x: T): (n: nat)
    ensures n <= |s|
  {
    if s == [] then 0 else (if !less(s[0], x) then 1 else 0) + CountFrom(less, s[1..], x)
  }

  lemma {:induction false} InsertCounts<T>(less: Order<T>, v: T, s: seq<T>, x: T)
    ensures CountUpTo(less, Insert(less, v, s), x) == CountUpTo(less, s, x) + if !less(x, v) then 1 else 0
    ensures CountFrom(less, Insert(less, v, s), x) == CountFrom(less, s, x) + if !less(v, x) then 1 else 0
  {
    if s != [] && less(s[0], v) {
      InsertCounts(less, v, s[1..], x);
      assert Insert(less, v, s)[1..] == Insert(less, v, s[1..]);
    } else {
      assert Insert(less, v, s)[1..] == s;
    }
  }

  lemma {:induction false} SortedCounts<T>(less: Order<T>, s: seq<T>, x: T)
    ensures CountUpTo(less, Sorted(less, s), x) == CountUpTo(less, s, x)
    ensures CountFrom(less, Sorted(less, s), x) == CountFrom(less, s, x)
  {
    if s != [] {
      SortedCounts(less, s[1..], x);
      InsertCounts(less, s[0], Sorted(less, s[1..]), x);
    }
  }

  lemma {:induction false} AscendingCounts<T(!new)>(less: Order<T>, s: seq<T>, i: nat)
    requires StrictWeak(less) && Ascending(less, s) && i < |s|
    ensures CountUpTo(less, s, s[i]) >= i + 1
    ensures CountFrom(less, s, s[i]) >= |s| - i
  {
    if i > 0 {
      AscendingCounts(less, s[1..], i - 1);
    } else {
      AllFrom(less, s, s[0]);
    }
  }

  lemma {:induction false} AllFrom<T>(less: Order<T>, s: seq<T>, x: T)
    requires forall i :: 0 <= i < |s| ==> !less(s[i], x)
    ensures CountFrom(less, s, x) == |s|
  {
    if s != [] {
      AllFrom(less, s[1..], x);
    }
  }

  /** Values inside an interval and values at or beyond a point outside it are different ones. */
  lemma {:induction false} CountsApart<T(!new)>(less: Order<T>, s: seq<T>, lo: T, hi: T, x: T)
    requires StrictWeak(less)
    ensures less(x, lo) ==> CountIn(less, s, lo, hi) + CountUpTo(less, s, x) <= |s|
    ensures less(hi, x) ==> CountIn(less, s, lo, hi) + CountFrom(less, s, x) <= |s|
  {
    if s != [] {
      CountsApart(less, s[1..], lo, hi, x);
    }
  }

  // ---- the median ----

  function MiddleOf<T>(less: Order<T>, window: seq<T>): T
    requires window != []
  {
    Sorted(less, window)[|window| / 2]
  }

  /** The output is one of the values, with more than half the window on either side of it,
      itself included. */
  lemma MiddleIsOrderStatistic<T(!new)>(less: Order<T>, window: seq<T>)
    requires StrictWeak(less) && |window| % 2 == 1
    ensures var m := MiddleOf(less, window);
            && m in window
            && 2 * CountUpTo(less, window, m) > |window|
            && 2 * CountFrom(less, window, m) > |window|
  {
    var s, h := Sorted(less, window), |window| / 2;
    SortedAscending(less, window);
    AscendingCounts(less, s, h);
    SortedCounts(less, window, s[h]);
    assert s[h] in multiset(s);
  }

  /** Outliers, while fewer than half the window, do not reach the output. */
  lemma MajorityBoundsMiddle<T(!new)>(less: Order<T>, window: seq<T>, lo: T, hi: T)
    requires StrictWeak(less) && |window| % 2 == 1 && 2 * CountIn(less, window, lo, hi) > |window|
    ensures Between(less, lo, MiddleOf(less, window), hi)
  {
    MiddleIsOrderStatistic(less, window);
    CountsApart(less, window, lo, hi, MiddleOf(less, window));
  }

  class Filter<T(==)> {
    const less: Order<T>
    const window: Buffer<T>
    var initOutput: T
    var output: T

    ghost predicate Valid()
      reads this, window, window.slots
    {
      && window.Valid() && window.slots.Length % 2 == 1
      && |window.Contents()| == window.slots.Length
      && output == MiddleOf(less, window.Contents())
    }

    constructor (less: Order<T>, size: nat, init: T)
      requires size % 2 == 1
      ensures Valid() && fresh(window) && fresh(window.slots) && window.slots.Length == size
      ensures output == init && initOutput == init && this.less == less
    {
      window := new Buffer<T>(size);
      this.less := less;
      initOutput, output := init, init;
      new;
      window.Fill(init);
      MiddleOfConstant(less, window.Contents(), init);
    }

    method Push(v: T)
      requires Valid()
      modifies this, window, window.slots
      ensures Valid() && initOutput == old(initOutput)
      ensures window.Contents() == old(window.Contents())[1..] + [v]
      ensures output == MiddleOf(less, window.Contents())
    {
      hide Window, Values, Sorted;
      window.PushBack(v);
      ghost var w := window.Contents();
      var n := window.slots.Length;
      var copy: seq<T> := seq(n, _ => v);
      for i := 0 to window.size
        invariant window.Valid() && window.Contents() == w && initOutput == old(initOutput)
        invariant |copy| == n && forall j :: 0 <= j < i ==> copy[j] == w[j]
      {
        var x := window.At(i);
        copy := copy[i := x];
      }
      assert copy == w;
      output := Sorted(less, copy)[n / 2];
    }

    method SetOutput(v: T)
      requires Valid()
      modifies this, window, window.slots
      ensures Valid() && output == v && initOutput == old(initOutput)
      ensures forall i :: 0 <= i < |window.Contents()| ==> window.Contents()[i] == v
    {
      window.Fill(v);
      output := v;
      MiddleOfConstant(less, window.Contents(), v);
    }

    method Reset()
      requires Valid()
      modifies this, window, window.slots
      ensures Valid() && output == initOutput == old(initOutput)
      ensures forall i :: 0 <= i < |window.Contents()| ==> window.Contents()[i] == initOutput
    {
      SetOutput(initOutput);
    }
  }

  lemma MiddleOfConstant<T>(less: Order<T>, window: seq<T>, v: T)
    requires window != [] && forall i :: 0 <= i < |window| ==> window[i] == v
    ensures MiddleOf(less, window) == v
  {
    var s := Sorted(less, window);
    assert s[|window| / 2] in multiset(s);
  }
}
