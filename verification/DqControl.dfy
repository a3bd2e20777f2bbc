/**
 dq_control in exact arithmetic: two PI controllers whose output limits keep the voltage vector
 inside the circle that the DC link can supply.
 */
module DqControl {
  import opened PiController

  datatype VecDq = VecDq(d: real, q: real)

  /** An exact square root. */
  ghost predicate IsSqrt(sqrt: real -> real) {
    forall x :: x >= 0.0 ==> sqrt(x) >= 0.0 && sqrt(x) * sqrt(x) == x
  }

  function Limited(c: Pi, low: real, high: real): Pi {
    c.(lower := low, upper := high)
  }

  /** The longest vector that the DC link can supply. */
  function RadiusOf(sqrt: real -> real, vdc: real): real
    requires sqrt(3.0) != 0.0
  {
    vdc / sqrt(3.0)
  }

  /** What the d axis may take of the radius. */
  function Share(r: real, factor: real): real {
    r * factor
  }

  function Times(x: real, y: real): real {
    x * y
  }

  function Sq(x: real): real {
    Times(x, x)
  }

  datatype Outcome = Outcome(id: Pi, iq: Pi, v: VecDq)

  /** The q axis, given what d left. */
  function PushQ(sqrt: real -> real, iq: Pi, error: real, comp: real, vd: real, r: real): Pi {
    var left := if Abs(vd) < r then sqrt(Sq(r) - Sq(vd)) else 0.0;
    Pushed(if Abs(vd) < r then Limited(iq, -left - comp, left - comp) else Limited(iq, 0.0, 0.0), error)
  }

  function PushD(id: Pi, error: real, comp: real, avail: real): Pi {
    Pushed(Limited(id, -avail - comp, avail - comp), error)
  }

  /** The limits of one call, and both pushes. */
  function Step(sqrt: real -> real, id: Pi, iq: Pi, errors: VecDq, comp: VecDq, vdc: real, factor: real): Outcome
    requires sqrt(3.0) != 0.0
  {
    var r := RadiusOf(sqrt, vdc);
    var id' := PushD(id, errors.d, comp.d, Share(r, factor));
    var vd := id'.out + comp.d;
    var iq' := PushQ(sqrt, iq, errors.q, comp.q, vd, r);
    Outcome(id', iq', VecDq(vd, iq'.out + comp.q))
  }

  predicate InCircle(v: VecDq, vdc: real) {
    Sq(v.d) + Sq(v.q) <= Sq(vdc) / 3.0
  }

  lemma SquareBound(x: real, a: real)
    requires -a <= x <= a
    ensures Sq(x) <= Sq(a)
  {
    assert (a - x) * (a + x) >= 0.0;
    assert (a - x) * (a + x) == a * a - x * x;
  }

  lemma RadiusSquared(sqrt: real -> real, vdc: real)
    requires IsSqrt(sqrt) && vdc > 0.0
    ensures sqrt(3.0) > 0.0
    ensures var r := RadiusOf(sqrt, vdc); r > 0.0 && Sq(r) == Sq(vdc) / 3.0
  {
    var s := sqrt(3.0);
    assert s * s == 3.0;
    var r := vdc / s;
    assert r * s == vdc;
    assert (r * r) * (s * s) == (r * s) * (r * s);
  }

  lemma ScaledRadius(r: real, factor: real)
    requires r > 0.0 && 0.0 <= factor <= 1.0
    ensures 0.0 <= Share(r, factor) <= r && (factor < 1.0 <==> Share(r, factor) < r)
  {
    assert r * factor >= 0.0;
    assert r * (1.0 - factor) >= 0.0;
    if factor < 1.0 {
      assert r * (1.0 - factor) > 0.0;
    }
  }

  lemma Positive(x: real, y: real)
    requires (x > 0.0 && y > 0.0) || (x < 0.0 && y < 0.0)
    ensures Times(x, y) > 0.0
  {
  }

  lemma StrictlyInside(v: real, r: real)
    requires Abs(v) < r
    ensures Sq(r) - Sq(v) > 0.0
  {
    var x, y := r - v, r + v;
    Positive(x, y);
    assert Times(x, y) == (r - v) * (r + v) == r * r - v * v;
  }

  lemma SquareSign(x: real)
    ensures x != 0.0 ==> Sq(x) > 0.0
  {
    hide Times;
    if x != 0.0 {
      Positive(x, x);
    }
  }

  /** The q axis inside: its share is what is left of the circle. */
  lemma InsideCase(sqrt: real -> real, iq: Pi, error: real, comp: real, vd: real, r: real)
    requires IsSqrt(sqrt) && Abs(vd) < r
    ensures Sq(vd) + Sq(PushQ(sqrt, iq, error, comp, vd, r).out + comp) <= Sq(r)
  {
    StrictlyInside(vd, r);
    var rest := Sq(r) - Sq(vd);
    var q := sqrt(rest);
    assert q >= 0.0 && Sq(q) == rest;
    hide IsSqrt, Pushed, Sq;
    var c := Limited(iq, -q - comp, q - comp);
    OutputWithinLimits(c, error);
    SquareBound(Pushed(c, error).out + comp, q);
  }

  /** The q axis when d has taken the radius: only the compensation is left of it. */
  lemma EdgeCase(sqrt: real -> real, iq: Pi, error: real, comp: real, vd: real, r: real)
    requires Abs(vd) == r
    ensures Sq(vd) + Sq(PushQ(sqrt, iq, error, comp, vd, r).out + comp) <= Sq(r) <==> comp == 0.0
  {
    assert Sq(vd) == Sq(r);
    hide Pushed, Sq;
    OutputWithinLimits(Limited(iq, 0.0, 0.0), error);
    SquareSign(comp);
  }

  /** One call, whatever the state of the controllers: the d voltage is within its share, and the
      vector is in the circle exactly when the d voltage does not take all of the radius or there
      is no q compensation to add to it. */
  lemma CircleExactly(sqrt: real -> real, id: Pi, iq: Pi, errors: VecDq, comp: VecDq, vdc: real, factor: real)
    requires IsSqrt(sqrt) && vdc > 0.0 && 0.0 <= factor <= 1.0
    ensures sqrt(3.0) > 0.0
    ensures var r := RadiusOf(sqrt, vdc);
            var v := Step(sqrt, id, iq, errors, comp, vdc, factor).v;
            && Abs(v.d) <= Share(r, factor)
            && (InCircle(v, vdc) <==> Abs(v.d) < r || comp.q == 0.0)
  {
    RadiusSquared(sqrt, vdc);
    hide IsSqrt, Pushed, RadiusOf, Share, Sq, PushQ;
    var r := RadiusOf(sqrt, vdc);
    var avail := Share(r, factor);
    ScaledRadius(r, factor);
    OutputWithinLimits(Limited(id, -avail - comp.d, avail - comp.d), errors.d);
    var vd := PushD(id, errors.d, comp.d, avail).out + comp.d;
    if Abs(vd) < r {
      InsideCase(sqrt, iq, errors.q, comp.q, vd, r);
    } else {
      EdgeCase(sqrt, iq, errors.q, comp.q, vd, r);
    }
  }

  // ---- what is asked for ----

  /** The voltage an axis asks for: both parts of its controller, and the compensation. */
  function Asked(c: Pi, error: real, comp: real): real {
    error * c.kp + (error + c.error) * 0.5 * c.ki * c.ts + c.integral + comp
  }

  lemma PushedBetween(c: Pi, error: real, comp: real, low: real, high: real)
    requires low <= high
    ensures var out := Pushed(Limited(c, low - comp, high - comp), error).out + comp;
            out == Clamp(Asked(c, error, comp), low, high)
  {
    var l := Limited(c, low - comp, high - comp);
    OutputIsClamped(l, error);
    SumOfParts(l, error);
    hide Pushed, Proportional, Integrated, Clamp, Asked;
    ClampMoved(Asked(l, error, 0.0), comp, low, high);
    AskedMoved(c, l, error, comp);
  }

  lemma SumOfParts(c: Pi, error: real)
    ensures Proportional(c, error) + Integrated(c, error) == Asked(c, error, 0.0)
  {
  }

  lemma ClampMoved(x: real, d: real, low: real, high: real)
    ensures Clamp(x, low - d, high - d) + d == Clamp(x + d, low, high)
  {
  }

  lemma AskedMoved(c: Pi, l: Pi, error: real, comp: real)
    requires l.kp == c.kp && l.ki == c.ki && l.ts == c.ts && l.integral == c.integral && l.error == c.error
    ensures Asked(l, error, 0.0) + comp == Asked(c, error, comp)
  {
  }

  /** Comparing squares compares lengths. */
  lemma SquaresCompare(x: real, a: real)
    requires a >= 0.0
    ensures Sq(x) <= Sq(a) <==> -a <= x <= a
  {
    hide Times;
    if -a <= x <= a {
      SquareBound(x, a);
    } else if x > a {
      Positive(x - a, x + a);
      Difference(x, a);
    } else {
      Positive(x - a, x + a);
      Difference(x, a);
    }
  }

  lemma Difference(x: real, a: real)
    ensures Times(x - a, x + a) == Sq(x) - Sq(a)
  {
    assert (x - a) * (x + a) == x * x - a * a;
  }

  lemma SquareOfOpposite(a: real)
    ensures Sq(-a) == Sq(a)
  {
  }

  /** The q axis gets what it asks for if that fits into the circle, and otherwise all that is left, in
      the direction it asks for. */
  lemma QGetsWhatFits(sqrt: real -> real, iq: Pi, error: real, comp: real, vd: real, r: real)
    requires IsSqrt(sqrt) && Abs(vd) < r
    ensures var (q, v) := (Asked(iq, error, comp), PushQ(sqrt, iq, error, comp, vd, r).out + comp);
            && (Sq(vd) + Sq(q) <= Sq(r) ==> v == q)
            && (Sq(vd) + Sq(q) > Sq(r) ==> Sq(vd) + Sq(v) == Sq(r) && (if q > 0.0 then v > 0.0 else v < 0.0))
  {
    StrictlyInside(vd, r);
    var rest := Sq(r) - Sq(vd);
    var left := sqrt(rest);
    assert left >= 0.0 && Sq(left) == rest;
    hide IsSqrt, Pushed, Sq, Asked;
    PushedBetween(iq, error, comp, -left, left);
    SquaresCompare(Asked(iq, error, comp), left);
    SquareOfOpposite(left);
    SquareSign(left);
  }

  /** v is what is asked for, d first, as far as the share and the circle of radius r allow. */
  predicate Fitted(v: VecDq, asked: VecDq, compQ: real, r: real, share: real) {
    && v.d == Clamp(asked.d, -share, share)
    && (Abs(v.d) < r && Sq(v.d) + Sq(asked.q) <= Sq(r) ==> v.q == asked.q)
    && (Abs(v.d) < r && Sq(v.d) + Sq(asked.q) > Sq(r) ==>
          Sq(v.d) + Sq(v.q) == Sq(r) && (if asked.q > 0.0 then v.q > 0.0 else v.q < 0.0))
    && (Abs(v.d) >= r ==> v.q == compQ)
  }

  /** One call, whatever the state of the controllers: the d axis gets what it asks for up to its share
      of the radius; then the q axis gets what it asks for, or what is left of the circle in that
      direction; and if the d axis has taken the radius, the q compensation alone. */
  lemma AxesGetWhatFits(sqrt: real -> real, id: Pi, iq: Pi, errors: VecDq, comp: VecDq, vdc: real, factor: real,
                        r: real, share: real)
    requires IsSqrt(sqrt) && vdc > 0.0 && 0.0 <= factor <= 1.0
    requires sqrt(3.0) != 0.0 && r == vdc / sqrt(3.0) && share == r * factor
    ensures Fitted(Step(sqrt, id, iq, errors, comp, vdc, factor).v,
                   VecDq(Asked(id, errors.d, comp.d), Asked(iq, errors.q, comp.q)), comp.q, r, share)
  {
    hide PushD, PushQ, Asked, IsSqrt, Sq, Abs, Clamp;
    RadiusSquared(sqrt, vdc);
    ScaledRadius(r, factor);
    assert r == RadiusOf(sqrt, vdc) && share == Share(r, factor);
    BothAxes(sqrt, id, iq, errors, comp, r, share);
  }

  lemma BothAxes(sqrt: real -> real, id: Pi, iq: Pi, errors: VecDq, comp: VecDq, r: real, share: real)
    requires IsSqrt(sqrt) && 0.0 <= share <= r
    ensures var vd := PushD(id, errors.d, comp.d, share).out + comp.d;
            var vq := PushQ(sqrt, iq, errors.q, comp.q, vd, r).out + comp.q;
            Fitted(VecDq(vd, vq), VecDq(Asked(id, errors.d, comp.d), Asked(iq, errors.q, comp.q)), comp.q, r, share)
  {
    hide IsSqrt, Pushed, Sq, Asked, PushQ;
    PushedBetween(id, errors.d, comp.d, -share, share);
    var vd := PushD(id, errors.d, comp.d, share).out + comp.d;
    if Abs(vd) < r {
      QGetsWhatFits(sqrt, iq, errors.q, comp.q, vd, r);
    } else {
      NothingLeft(sqrt, iq, errors.q, comp.q, vd, r);
    }
  }

  lemma NothingLeft(sqrt: real -> real, iq: Pi, error: real, comp: real, vd: real, r: real)
    requires Abs(vd) >= r
    ensures PushQ(sqrt, iq, error, comp, vd, r).out == 0.0
  {
    hide Pushed, Sq;
    OutputWithinLimits(Limited(iq, 0.0, 0.0), error);
  }

  ghost predicate AlwaysInCircle(sqrt: real -> real, comp: VecDq, vdc: real, factor: real)
    requires sqrt(3.0) != 0.0
  {
    forall id: Pi, iq: Pi, errors: VecDq :: InCircle(Step(sqrt, id, iq, errors, comp, vdc, factor).v, vdc)
  }

  /** The circle is kept for every state of the controllers and every error if and only if the d
      axis may not take the whole radius, or there is no q compensation. */
  lemma CircleKeptExactlyWhen(sqrt: real -> real, comp: VecDq, vdc: real, factor: real)
    requires IsSqrt(sqrt) && vdc > 0.0 && 0.0 <= factor <= 1.0
    ensures sqrt(3.0) > 0.0
    ensures AlwaysInCircle(sqrt, comp, vdc, factor) <==> factor < 1.0 || comp.q == 0.0
  {
    RadiusSquared(sqrt, vdc);
    var r := RadiusOf(sqrt, vdc);
    ScaledRadius(r, factor);
    if factor < 1.0 || comp.q == 0.0 {
      forall id: Pi, iq: Pi, errors: VecDq
        ensures InCircle(Step(sqrt, id, iq, errors, comp, vdc, factor).v, vdc)
      {
        CircleExactly(sqrt, id, iq, errors, comp, vdc, factor);
      }
    } else {
      // An integral that already asks for the whole radius.
      var full := Pi(0.0, 0.0, 0.0, r - comp.d, 0.0, 0.0, 0.0, 0.0);
      var none := VecDq(0.0, 0.0);
      CircleExactly(sqrt, full, full, none, comp, vdc, factor);
      assert Step(sqrt, full, full, none, comp, vdc, factor).v.d == r;
      assert !InCircle(Step(sqrt, full, full, none, comp, vdc, factor).v, vdc);
    }
  }

  lemma CircleInside(sqrt: real -> real, id: Pi, iq: Pi, errors: VecDq, comp: VecDq, vdc: real, factor: real)
    requires IsSqrt(sqrt) && vdc > 0.0 && 0.0 <= factor < 1.0
    ensures sqrt(3.0) > 0.0 && InCircle(Step(sqrt, id, iq, errors, comp, vdc, factor).v, vdc)
  {
    CircleKeptExactlyWhen(sqrt, comp, vdc, factor);
  }

  class Control {
    const id: Controller
    const iq: Controller
    const sqrt: real -> real

    constructor (id: Controller, iq: Controller, sqrt: real -> real)
      requires id != iq && id.policy == iq.policy == NonInverting
      ensures this.id == id && this.iq == iq && this.sqrt == sqrt
    {
      this.id, this.iq, this.sqrt := id, iq, sqrt;
    }

    method Call(meas: VecDq, ref: VecDq, comp: VecDq, vdc: real, factor: real) returns (v: VecDq)
      requires id != iq && id.policy == iq.policy == NonInverting && sqrt(3.0) != 0.0
      modifies id, iq
      ensures Outcome(id.State(), iq.State(), v) ==
              Step(sqrt, old(id.State()), old(iq.State()), VecDq(ref.d - meas.d, ref.q - meas.q), comp, vdc, factor)
    {
      hide IsSqrt, InCircle, Pushed, Sq, Abs, RadiusOf, Share;
      ghost var id0, iq0 := id.State(), iq.State();
      var dAvail := Share(RadiusOf(sqrt, vdc), factor);
      id.SetLowerLimit(-dAvail - comp.d);
      id.SetUpperLimit(dAvail - comp.d);
      assert id.State() == Limited(id0, -dAvail - comp.d, dAvail - comp.d);
      id.Push(ref.d, meas.d);
      var vd := id.out + comp.d;
      assert id.State() == PushD(id0, ref.d - meas.d, comp.d, dAvail);
      var radius := RadiusOf(sqrt, vdc);
      if Abs(vd) < radius {
        var qAvail := sqrt(Sq(radius) - Sq(vd));
        iq.SetLowerLimit(-qAvail - comp.q);
        iq.SetUpperLimit(qAvail - comp.q);
        assert iq.State() == Limited(iq0, -qAvail - comp.q, qAvail - comp.q);
      } else {
        iq.SetLowerLimit(0.0);
        iq.SetUpperLimit(0.0);
        assert iq.State() == Limited(iq0, 0.0, 0.0);
      }
      iq.Push(ref.q, meas.q);
      assert iq.State() == PushQ(sqrt, iq0, ref.q - meas.q, comp.q, vd, radius);
      v := VecDq(vd, iq.out + comp.q);
    }
  }
}
