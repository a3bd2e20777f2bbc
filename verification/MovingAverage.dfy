/**
 moving_average_filter in exact arithmetic: the sum is kept up to date instead of recomputed. For
 an integer type the inputs are whole numbers and division cuts off the fraction.
 */
module MovingAverage {
  import opened BoundedDeque
  import opened CircularBuffer
  import opened RingSlots

  function Sum(s: seq<real>): real {
    if s == [] then 0.0 else Sum(s[..|s| - 1]) + s[|s| - 1]
  }

  lemma {:induction false} SumDropsFirst(s: seq<real>)
    requires s != []
    ensures Sum(s[1..]) == Sum(s) - s[0]
  {
    var n := |s| - 1;
    if n > 0 {
      SumDropsFirst(s[..n]);
      assert s[1..][..n - 1] == s[..n][1..];
      assert s[1..][n - 1] == s[n];
    }
  }

  lemma SumAppends(s: seq<real>, v: real)
    ensures Sum(s + [v]) == Sum(s) + v
  {
    assert (s + [v])[..|s|] == s;
  }

  /** The whole part, as C++ integer division leaves it. */
  function Truncated(x: real): real {
    if x >= 0.0 then x.Floor as real else -((-x).Floor as real)
  }

  function Size(x: real): real {
    if x >= 0.0 then x else -x
  }

  /** The fraction is cut off towards zero. */
  lemma TruncatedExactly(x: real)
    ensures var t := Truncated(x);
            && Whole(t) && Size(t) <= Size(x) < Size(t) + 1.0
            && (x >= 0.0 ==> t >= 0.0) && (x <= 0.0 ==> t <= 0.0)
  {
    FloorExactly(x);
    FloorExactly(-x);
  }

  lemma FloorExactly(x: real)
    ensures x.Floor as real <= x < x.Floor as real + 1.0
    ensures x >= 0.0 ==> x.Floor >= 0
    ensures Whole(x.Floor as real) && Whole(-(x.Floor as real))
  {
    assert (x.Floor as real).Floor == x.Floor;
    assert -(x.Floor as real) == (-x.Floor) as real;
  }

  function Divide(a: real, n: nat, whole: bool): real
    requires n > 0
  {
    if whole then Truncated(a / n as real) else a / n as real
  }

  /** The average of the latest inputs, from scratch. */
  function Average(inputs: seq<real>, window: nat, whole: bool): real
    requires inputs != [] && window > 0
  {
    Divide(Sum(Last(inputs, window)), |Last(inputs, window)|, whole)
  }

  /** The average and its number of values make up their sum, or what is cut off is less than one for
      each. */
  lemma AverageExactly(inputs: seq<real>, window: nat, whole: bool)
    requires inputs != [] && window > 0
    ensures var (s, n) := (Last(inputs, window), |Last(inputs, window)| as real);
            var a := Average(inputs, window, whole);
            && n > 0.0
            && (!whole ==> a * n == Sum(s))
            && (whole ==> Whole(a) && Size(a) <= Size(Sum(s) / n) < Size(a) + 1.0
                          && (Sum(s) / n >= 0.0 ==> a >= 0.0) && (Sum(s) / n <= 0.0 ==> a <= 0.0))
  {
    var s := Last(inputs, window);
    assert |s| > 0;
    hide Last, Sum, Truncated;
    TruncatedExactly(Sum(s) / |s| as real);
  }

  /** The one step by which the incremental sum follows the window. */
  lemma SlideSum(capacity: nat, s: seq<real>, v: real)
    requires 0 < capacity && |s| <= capacity
    ensures Sum(PushBack(capacity, s, v)) == if |s| == capacity then Sum(s) - s[0] + v else Sum(s) + v
  {
    SumAppends(s, v);
    if |s| == capacity {
      SumDropsFirst(s);
      SumAppends(s[1..], v);
    }
  }

  predicate Whole(x: real) {
    x == x.Floor as real
  }

  lemma FloorWithin(x: real, k: int)
    ensures x.Floor as real <= x
    ensures k as real <= x ==> k <= x.Floor
  {
  }

  /** Cutting off does not leave an interval between whole numbers. */
  lemma TruncatedWithin(x: real, lo: int, hi: int)
    requires lo as real <= x <= hi as real
    ensures lo as real <= Truncated(x) <= hi as real
  {
    if x >= 0.0 {
      FloorWithin(x, lo);
    } else {
      FloorWithin(-x, -hi);
    }
  }

  lemma {:induction false} SumWithin(s: seq<real>, lo: real, hi: real)
    requires forall i :: 0 <= i < |s| ==> lo <= s[i] <= hi
    ensures |s| as real * lo <= Sum(s) <= |s| as real * hi
  {
    if s != [] {
      SumWithin(s[..|s| - 1], lo, hi);
    }
  }

  lemma QuotientWithin(a: real, n: real, lo: real, hi: real)
    requires n > 0.0 && n * lo <= a <= n * hi
    ensures lo <= a / n <= hi
  {
  }

  /** The average lies between any bounds of the latest inputs, also after cutting off, where the
      bounds are whole as the inputs are. */
  lemma AverageWithin(inputs: seq<real>, window: nat, whole: bool, lo: real, hi: real)
    requires inputs != [] && window > 0 && (whole ==> Whole(lo) && Whole(hi))
    requires forall i :: 0 <= i < |Last(inputs, window)| ==> lo <= Last(inputs, window)[i] <= hi
    ensures lo <= Average(inputs, window, whole) <= hi
  {
    var s := Last(inputs, window);
    assert s != [];
    var n := |s| as real;
    assert n > 0.0;
    hide Truncated, Last, Sum;
    SumWithin(s, lo, hi);
    QuotientWithin(Sum(s), n, lo, hi);
    if whole {
      TruncatedWithin(Sum(s) / n, lo.Floor, hi.Floor);
    }
  }

  class Filter {
    const data: Buffer<real>
    const whole: bool              // division of an integer type
    var sum: real
    var initOutput: real
    var output: real
    ghost var inputs: seq<real>    // since the last reset or set_output

    ghost predicate Valid()
      reads this, data, data.slots
    {
      && data.Valid()
      && data.Contents() == Last(inputs, data.slots.Length)
      && sum == Sum(data.Contents())
      && (inputs != [] ==> output == Average(inputs, data.slots.Length, whole))
    }

    constructor (window: nat, init: real, whole: bool)
      requires window > 0
      ensures Valid() && fresh(data) && fresh(data.slots) && data.slots.Length == window
      ensures inputs == [] && output == init && initOutput == init && this.whole == whole
    {
      data := new Buffer<real>(window);
      this.whole := whole;
      sum, initOutput, output, inputs := 0.0, init, init, [];
    }

    /** The output is the average of the last min(n, window) of the n inputs so far. */
    method Push(v: real)
      requires Valid()
      modifies this, data, data.slots
      ensures Valid() && inputs == old(inputs) + [v] && initOutput == old(initOutput)
      ensures output == Average(inputs, data.slots.Length, whole)
    {
      hide Window, Values, Last, Sum, Divide, BoundedDeque.PushBack;
      ghost var s := data.Contents();
      SlideSum(data.slots.Length, s, v);
      LastStep(data.slots.Length, inputs, v);
      if data.size != data.slots.Length {
        data.PushBack(v);
        sum := sum + v;
      } else {
        var oldest := data.Front();
        sum := sum - oldest + v;
        data.PushBack(v);
      }
      inputs := inputs + [v];
      output := Divide(sum, data.size, whole);
    }

    method SetOutput(v: real)
      requires Valid()
      modifies this, data, data.slots
      ensures Valid() && inputs == [] && output == v && initOutput == old(initOutput)
    {
      data.Clear();
      sum, output, inputs := 0.0, v, [];
    }

    method Reset()
      requires Valid()
      modifies this, data, data.slots
      ensures Valid() && inputs == [] && output == initOutput == old(initOutput)
    {
      SetOutput(initOutput);
    }
  }
}
