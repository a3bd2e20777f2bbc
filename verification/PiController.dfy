/** clamping_pi_controller in exact arithmetic: limits and anti-windup. */
module PiController {

  datatype Policy = NonInverting | Inverting

  function Error(p: Policy, ref: real, meas: real): real {
    if p.NonInverting? then ref - meas else meas - ref
  }

  datatype Pi = Pi(kp: real, ki: real, ts: real, integral: real, lower: real, upper: real, out: real, error: real)

  function Proportional(c: Pi, error: real): real {
    error * c.kp
  }

  /** The area below the line from one error to the next. */
  function Trapezoid(before: real, error: real, ki: real, ts: real): real {
    (error + before) * 0.5 * ki * ts
  }

  /** The integral, one trapezoid further. */
  function Integrated(c: Pi, error: real): real {
    Trapezoid(c.error, error, c.ki, c.ts) + c.integral
  }

  /** One push of an error. */
  function Pushed(c: Pi, error: real): Pi {
    var outP, outI := Proportional(c, error), Integrated(c, error);
    var sum := outP + outI;
    if sum > c.upper then
      c.(error := error, out := c.upper, integral := if outP < c.upper then c.upper - outP else c.integral)
    else if sum < c.lower then
      c.(error := error, out := c.lower, integral := if outP > c.lower then c.lower - outP else c.integral)
    else
      c.(error := error, out := sum, integral := outI)
  }

  function Abs(x: real): real {
    if x >= 0.0 then x else -x
  }

  /** The output is always within the limits, and is the proportional and integral parts together
      unless the proportional part alone is at or beyond the limit it is held at. */
  lemma OutputWithinLimits(c: Pi, error: real)
    requires c.lower <= c.upper
    ensures var n := Pushed(c, error); n.lower == c.lower <= n.out <= c.upper == n.upper && n.kp == c.kp
    ensures var n := Pushed(c, error);
            var p := Proportional(c, error);
            && (|| n.out == p + n.integral
                || (n.out == c.upper <= p && n.integral == c.integral)
                || (n.out == c.lower >= p && n.integral == c.integral))
  {
    hide Proportional, Integrated;
  }

  function Clamp(x: real, lower: real, upper: real): real {
    if x > upper then upper else if x < lower then lower else x
  }

  /** The output is what limiting the sum of both parts gives, and the error is remembered. */
  lemma OutputIsClamped(c: Pi, error: real)
    ensures var n := Pushed(c, error);
            n.out == Clamp(Proportional(c, error) + Integrated(c, error), c.lower, c.upper) && n.error == error
  {
  }

  /** What the integral cannot leave while the proportional part stays below P. */
  predicate Bounded(c: Pi, P: real) {
    c.lower - P <= c.integral <= c.upper + P
  }

  /** The proportional part of an error stays below P. */
  predicate SmallPart(c: Pi, error: real, P: real) {
    Abs(Proportional(c, error)) <= P
  }

  lemma PushKeepsBound(c: Pi, error: real, P: real)
    requires c.lower <= c.upper && SmallPart(c, error, P) && Bounded(c, P)
    ensures Bounded(Pushed(c, error), P)
  {
    hide Proportional, Pushed;
    OutputWithinLimits(c, error);
  }

  lemma SamePart(c: Pi, m: Pi, error: real, P: real)
    requires m.kp == c.kp
    ensures SmallPart(c, error, P) <==> SmallPart(m, error, P)
  {
  }

  /** One step of a run: the gain and the timestep may have been set anew before the push. */
  datatype Input = Input(ki: real, ts: real, error: real)

  function PushAll(c: Pi, inputs: seq<Input>): Pi {
    if inputs == [] then c
    else
      var x := inputs[|inputs| - 1];
      Pushed(PushAll(c, inputs[..|inputs| - 1]).(ki := x.ki, ts := x.ts), x.error)
  }

  /** Over any run the integral stays where it started to within the proportional part, whatever
      the integral gain, the timestep and the length of the run. */
  lemma {:induction false} NoWindup(c: Pi, inputs: seq<Input>, P: real)
    requires c.lower <= c.upper && Bounded(c, P)
    requires forall i :: 0 <= i < |inputs| ==> SmallPart(c, inputs[i].error, P)
    ensures var n := PushAll(c, inputs);
            && Bounded(n, P) && n.lower == c.lower && n.upper == c.upper && n.kp == c.kp
            && (inputs != [] ==> c.lower <= n.out <= c.upper)
  {
    hide Pushed, SmallPart;
    if inputs != [] {
      var most, x := inputs[..|inputs| - 1], inputs[|inputs| - 1];
      NoWindup(c, most, P);
      var m := PushAll(c, most).(ki := x.ki, ts := x.ts);
      SamePart(c, m, x.error, P);
      PushKeepsBound(m, x.error, P);
      OutputWithinLimits(m, x.error);
    }
  }

  // ---- leaving a limit ----

  /** What the output would gain from one push to the next without limits. */
  function Gain(c: Pi, before: real, error: real): real {
    Proportional(c, error) - Proportional(c, before) + Trapezoid(before, error, c.ki, c.ts)
  }

  /** A controller held at a limit leaves it with the first push that asks for less: the time spent
      at the limit has not wound up the integral. */
  lemma LeavesLimitAtOnce(c: Pi, e1: real, e2: real)
    requires c.lower < c.upper
    ensures var m := Pushed(c, e1);
            && (m.out == c.upper && Proportional(c, e1) < c.upper && Gain(c, e1, e2) < 0.0 ==>
                  Pushed(m, e2).out < c.upper)
            && (m.out == c.lower && Proportional(c, e1) > c.lower && Gain(c, e1, e2) > 0.0 ==>
                  Pushed(m, e2).out > c.lower)
  {
    var m := Pushed(c, e1);
    HeldExactly(c, e1);
    OutputIsClamped(m, e2);
    assert Proportional(m, e2) == Proportional(c, e2);
    assert Integrated(m, e2) == Trapezoid(e1, e2, c.ki, c.ts) + m.integral;
    hide Trapezoid, Proportional, Integrated, Pushed;
  }

  /** At a limit that the proportional part does not reach alone, both parts make up the limit; at one
      that it does, an integral that asks for more is left as it was. */
  lemma HeldExactly(c: Pi, error: real)
    requires c.lower < c.upper
    ensures var m := Pushed(c, error);
            && m.kp == c.kp && m.ki == c.ki && m.ts == c.ts && m.lower == c.lower && m.upper == c.upper
            && m.error == error
            && (m.out == c.upper && Proportional(c, error) < c.upper ==> m.integral == c.upper - Proportional(c, error))
            && (m.out == c.lower && Proportional(c, error) > c.lower ==> m.integral == c.lower - Proportional(c, error))
            && (m.out == c.upper <= Proportional(c, error) < Proportional(c, error) + Integrated(c, error)
                ==> m.integral == c.integral)
            && (m.out == c.lower >= Proportional(c, error) > Proportional(c, error) + Integrated(c, error)
                ==> m.integral == c.integral)
  {
    hide Proportional, Integrated;
  }

  // ---- a run that meets no limit ----

  /** The limits do not touch this push. */
  predicate Free(c: Pi, error: real) {
    c.lower <= Proportional(c, error) + Integrated(c, error) <= c.upper
  }

  /** Such a push, in numbers. */
  lemma FreePush(c: Pi, error: real)
    ensures var sum := error * c.kp + (error + c.error) * 0.5 * c.ki * c.ts + c.integral;
            && (c.lower <= sum <= c.upper <==> Free(c, error))
            && (Free(c, error) ==> Pushed(c, error) == c.(error := error, out := sum, integral := sum - error * c.kp))
  {
  }

  lemma FreeOutput(c: Pi, error: real)
    requires Free(c, error)
    ensures Pushed(c, error).out == Proportional(c, error) + c.integral + Trapezoid(c.error, error, c.ki, c.ts)
  {
  }

  predicate FreeRun(c: Pi, inputs: seq<Input>) {
    inputs == [] ||
    (var x := inputs[|inputs| - 1];
     && FreeRun(c, inputs[..|inputs| - 1])
     && Free(PushAll(c, inputs[..|inputs| - 1]).(ki := x.ki, ts := x.ts), x.error))
  }

  function LastError(before: real, inputs: seq<Input>): real {
    if inputs == [] then before else inputs[|inputs| - 1].error
  }

  /** The integral of the errors by the trapezoidal rule, each step with its own gain and length. */
  function Trapezoids(before: real, inputs: seq<Input>): real {
    if inputs == [] then 0.0
    else
      var most, x := inputs[..|inputs| - 1], inputs[|inputs| - 1];
      Trapezoids(before, most) + Trapezoid(LastError(before, most), x.error, x.ki, x.ts)
  }

  /** Away from the limits the controller integrates the errors and adds the proportional part. */
  lemma {:induction false} FreeRunIntegrates(c: Pi, inputs: seq<Input>)
    requires FreeRun(c, inputs)
    ensures var n := PushAll(c, inputs);
            && n.integral == c.integral + Trapezoids(c.error, inputs)
            && n.error == LastError(c.error, inputs) && n.kp == c.kp
            && (inputs != [] ==> n.out == n.error * n.kp + n.integral)
  {
    if inputs != [] {
      FreeRunIntegrates(c, inputs[..|inputs| - 1]);
    }
  }

  /** A constant error is integrated to its product with the time. */
  lemma {:induction false} ConstantErrorIntegrates(e: real, ki: real, ts: real, inputs: seq<Input>)
    requires forall i :: 0 <= i < |inputs| ==> inputs[i] == Input(ki, ts, e)
    ensures Trapezoids(e, inputs) == |inputs| as real * (e * ki * ts)
  {
    if inputs != [] {
      var most := inputs[..|inputs| - 1];
      ConstantErrorIntegrates(e, ki, ts, most);
      assert LastError(e, most) == e;
      assert Trapezoid(e, e, ki, ts) == e * ki * ts;
      hide Trapezoid;
      OneMoreTime(|most| as real, e * ki * ts);
    }
  }

  lemma OneMoreTime(n: real, area: real)
    ensures (n + 1.0) * area == n * area + area
  {
  }

  // ---- held at a limit by the proportional part ----

  /** Errors that ask for the upper limit by themselves, integrated forwards. */
  predicate AsksForUpper(c: Pi, x: Input) {
    x.ki >= 0.0 && x.ts >= 0.0 && x.error >= 0.0 && Proportional(c, x.error) >= c.upper
  }

  predicate AsksForLower(c: Pi, x: Input) {
    x.ki >= 0.0 && x.ts >= 0.0 && x.error <= 0.0 && Proportional(c, x.error) <= c.lower
  }

  lemma NonNegative(x: real, y: real, z: real)
    requires x >= 0.0 && y >= 0.0 && z >= 0.0
    ensures x * 0.5 * y * z >= 0.0
  {
    assert x * 0.5 * y >= 0.0;
  }

  /** As long as the proportional part alone asks for the upper limit, the output stays there and the
      integral is what it was when it got there. */
  lemma {:induction false} HeldAbove(c: Pi, inputs: seq<Input>)
    requires c.lower <= c.upper && c.integral >= 0.0 && c.error >= 0.0
    requires forall i :: 0 <= i < |inputs| ==> AsksForUpper(c, inputs[i])
    ensures var n := PushAll(c, inputs);
            && n.integral == c.integral && n.error == LastError(c.error, inputs) >= 0.0
            && n.kp == c.kp && n.lower == c.lower && n.upper == c.upper
            && (inputs != [] ==> n.out == c.upper)
  {
    if inputs != [] {
      var most, x := inputs[..|inputs| - 1], inputs[|inputs| - 1];
      HeldAbove(c, most);
      NonNegative(x.error + LastError(c.error, most), x.ki, x.ts);
    }
  }

  function Mirrored(c: Pi): Pi {
    c.(integral := -c.integral, lower := -c.upper, upper := -c.lower, out := -c.out, error := -c.error)
  }

  function MirroredInputs(inputs: seq<Input>): (r: seq<Input>)
    ensures |r| == |inputs|
  {
    seq(|inputs|, i requires 0 <= i < |inputs| => inputs[i].(error := -inputs[i].error))
  }

  /** The controller treats both directions alike. */
  lemma PushMirrors(c: Pi, error: real)
    requires c.lower <= c.upper
    ensures Pushed(Mirrored(c), -error) == Mirrored(Pushed(c, error))
  {
    var m := Mirrored(c);
    assert Proportional(m, -error) == -Proportional(c, error);
    var sum := error + c.error;
    assert ((-error) + m.error) * 0.5 == -(sum * 0.5);
    assert Integrated(m, -error) == -Integrated(c, error);
    hide Proportional, Integrated;
  }

  lemma {:induction false} RunMirrors(c: Pi, inputs: seq<Input>)
    requires c.lower <= c.upper
    ensures PushAll(Mirrored(c), MirroredInputs(inputs)) == Mirrored(PushAll(c, inputs))
    ensures var n := PushAll(c, inputs); n.lower == c.lower && n.upper == c.upper
  {
    hide Pushed;
    if inputs != [] {
      var most, x := inputs[..|inputs| - 1], inputs[|inputs| - 1];
      RunMirrors(c, most);
      assert MirroredInputs(inputs)[..|inputs| - 1] == MirroredInputs(most);
      var m := PushAll(c, most).(ki := x.ki, ts := x.ts);
      PushMirrors(m, x.error);
      OutputWithinLimits(m, x.error);
    }
  }

  lemma HeldBelow(c: Pi, inputs: seq<Input>)
    requires c.lower <= c.upper && c.integral <= 0.0 && c.error <= 0.0
    requires forall i :: 0 <= i < |inputs| ==> AsksForLower(c, inputs[i])
    ensures var n := PushAll(c, inputs);
            && n.integral == c.integral && n.error == LastError(c.error, inputs) <= 0.0
            && n.kp == c.kp && n.lower == c.lower && n.upper == c.upper
            && (inputs != [] ==> n.out == c.lower)
  {
    hide Pushed;
    var mirrored := MirroredInputs(inputs);
    forall i | 0 <= i < |inputs| ensures AsksForUpper(Mirrored(c), mirrored[i]) {
      assert AsksForLower(c, inputs[i]);
    }
    HeldAbove(Mirrored(c), mirrored);
    RunMirrors(c, inputs);
  }

  /** Held at a limit by its inputs, with an integral that does not ask for the other side. */
  predicate Held(c: Pi, inputs: seq<Input>) {
    || (c.integral >= 0.0 && c.error >= 0.0 && forall i :: 0 <= i < |inputs| ==> AsksForUpper(c, inputs[i]))
    || (c.integral <= 0.0 && c.error <= 0.0 && forall i :: 0 <= i < |inputs| ==> AsksForLower(c, inputs[i]))
  }

  lemma HoldKeepsIntegral(c: Pi, inputs: seq<Input>)
    requires c.lower <= c.upper && Held(c, inputs)
    ensures var n := PushAll(c, inputs);
            n.integral == c.integral && n.error == LastError(c.error, inputs) && n.kp == c.kp
  {
    hide PushAll, AsksForUpper, AsksForLower;
    if c.integral >= 0.0 && c.error >= 0.0 && forall i :: 0 <= i < |inputs| ==> AsksForUpper(c, inputs[i]) {
      HeldAbove(c, inputs);
    } else {
      HeldBelow(c, inputs);
    }
  }

  /** The first push after such a time that meets no limit outputs its proportional part, the integral
      from before that time, and one trapezoid. */
  lemma ResumesAfterHold(c: Pi, inputs: seq<Input>, x: Input)
    requires c.lower <= c.upper && Held(c, inputs)
    requires Free(PushAll(c, inputs).(ki := x.ki, ts := x.ts), x.error)
    ensures PushAll(c, inputs + [x]).out ==
            Proportional(c, x.error) + c.integral + Trapezoid(LastError(c.error, inputs), x.error, x.ki, x.ts)
  {
    hide Pushed, Proportional, Trapezoid, Free, Held;
    assert (inputs + [x])[..|inputs|] == inputs;
    HoldKeepsIntegral(c, inputs);
    var m := PushAll(c, inputs).(ki := x.ki, ts := x.ts);
    SameProportion(c, m, x.error);
    FreeOutput(m, x.error);
  }

  lemma SameProportion(c: Pi, m: Pi, error: real)
    requires m.kp == c.kp
    ensures Proportional(m, error) == Proportional(c, error)
  {
  }

  class Controller {
    const policy: Policy
    var kp: real
    var ki: real
    var ts: real
    var integral: real
    var lower: real
    var upper: real
    var out: real
    var error: real

    function State(): Pi
      reads this
    {
      Pi(kp, ki, ts, integral, lower, upper, out, error)
    }

    constructor (policy: Policy, kp: real, ki: real, ts: real, lower: real, upper: real)
      ensures this.policy == policy && State() == Pi(kp, ki, ts, 0.0, lower, upper, 0.0, 0.0)
    {
      this.policy := policy;
      this.kp, this.ki, this.ts, this.lower, this.upper := kp, ki, ts, lower, upper;
      integral, out, error := 0.0, 0.0, 0.0;
    }

    method SetLowerLimit(value: real)
      modifies `lower
      ensures lower == value
    {
      lower := value;
    }

    method SetUpperLimit(value: real)
      modifies `upper
      ensures upper == value
    {
      upper := value;
    }

    method Push(ref: real, meas: real)
      modifies this
      ensures State() == Pushed(old(State()), if policy.NonInverting? then ref - meas else meas - ref)
    {
      var e := Error(policy, ref, meas);
      hide Proportional, Integrated;
      var outP, outI := Proportional(State(), e), Integrated(State(), e);
      error := e;
      var sum := outP + outI;
      if sum > upper {
        out := upper;
        if outP < upper {
          integral := upper - outP;
        }
      } else if sum < lower {
        out := lower;
        if outP > lower {
          integral := lower - outP;
        }
      } else {
        out := sum;
        integral := outI;
      }
    }

    method Reset()
      modifies this
      ensures State() == old(State()).(integral := 0.0, error := 0.0, out := 0.0)
    {
      integral, error, out := 0.0, 0.0, 0.0;
    }
  }
}
