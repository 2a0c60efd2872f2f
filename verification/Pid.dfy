/** The PID step with filtered derivative and conditional anti-windup, over the reals. */
module Pid {
  import opened Reals

  datatype Config = Config(kp: real, ki: real, kd: real, outMin: real, outMax: real)

  datatype State = State(integral: real, prevTemp: real, dFilt: real)

  const INITIAL := State(0.0, 0.0, 0.0)

  function Abs(x: real): real {
    if x < 0.0 then -x else x
  }

  function Min(x: real, y: real): real {
    if x < y then x else y
  }

  function Max(x: real, y: real): real {
    if x < y then y else x
  }

  function Seconds(dtSec: int): (dt: real)
    ensures dt >= 1.0
  {
    (if dtSec <= 0 then 1 else dtSec) as real
  }

  function ProportionalTerm(c: Config, error: real): real {
    c.kp * error
  }

  function IntegralStep(c: Config, error: real, dt: real): real {
    c.ki * error * dt
  }

  /** The unfiltered derivative term for a drop of the temperature since the previous step. */
  function RawDerivative(c: Config, drop: real, dt: real): real
    requires dt >= 1.0
  {
    Over(c.kd * drop, dt)
  }

  function Over(x: real, dt: real): real
    requires dt >= 1.0
  {
    x / dt
  }

  function Filter(dFilt: real, dRaw: real): real {
    0.9 * dFilt + 0.1 * dRaw
  }

  /** Saturation and anti-windup on the three terms: the new integral and the output. */
  function Decide(c: Config, error: real, p: real, integral: real, di: real, d: real): (real, real) {
    var iRaw := integral + di;
    var raw := p + iRaw + d;
    var atMin := raw < c.outMin;
    var low := if atMin then c.outMin else raw;
    var atMax := low > c.outMax;
    var freeze := (atMin && error < 0.0) || (atMax && error > 0.0);
    (if freeze then integral else iRaw, if atMax then c.outMax else low)
  }

  /** One step: the new state and the output. */
  function Step(c: Config, s: State, setpoint: real, measured: real, dtSec: int): (State, real) {
    var dt := Seconds(dtSec);
    var error := setpoint - measured;
    var d := Filter(s.dFilt, RawDerivative(c, s.prevTemp - measured, dt));
    var (integral, output) := Decide(c, error, ProportionalTerm(c, error), s.integral, IntegralStep(c, error, dt), d);
    (State(integral, measured, d), output)
  }

  /** The controller state behind a pointer, changed in place. */
  class Controller {
    var integral: real
    var prevTemp: real
    var dFilt: real

    ghost function View(): State
      reads this
    {
      State(integral, prevTemp, dFilt)
    }

    constructor ()
      ensures View() == INITIAL
    {
      integral, prevTemp, dFilt := 0.0, 0.0, 0.0;
    }

    method PidStep(c: Config, setpoint: real, measured: real, dtSec: int) returns (output: real)
      modifies this
      ensures (View(), output) == Step(c, old(View()), setpoint, measured, dtSec)
    {
      hide ProportionalTerm, IntegralStep, RawDerivative;
      var dt := Seconds(dtSec);
      var error := setpoint - measured;
      var p := ProportionalTerm(c, error);
      var iRaw := integral + IntegralStep(c, error, dt);
      dFilt := Filter(dFilt, RawDerivative(c, prevTemp - measured, dt));
      output := p + iRaw + dFilt;
      var atMin, atMax := false, false;
      if output < c.outMin { output := c.outMin; atMin := true; }
      if output > c.outMax { output := c.outMax; atMax := true; }
      var freeze := (atMin && error < 0.0) || (atMax && error > 0.0);
      if !freeze {
        integral := iRaw;
      }
      prevTemp := measured;
    }
  }

  // ---------------------------------------------------------------- anti-windup bounds

  /** Gains are not negative and the output range is not empty. */
  predicate Sane(c: Config) {
    c.kp >= 0.0 && c.ki >= 0.0 && c.kd >= 0.0 && c.outMin <= c.outMax
  }

  /** The derivative bound for measurements within [-m, m]. */
  function DerivativeBound(c: Config, m: real): real {
    2.0 * c.kd * m
  }

  ghost predicate Bounded(c: Config, s: State, m: real) {
    var d := DerivativeBound(c, m);
    && Abs(s.prevTemp) <= m
    && Abs(s.dFilt) <= d
    && Min(0.0, c.outMin - d) <= s.integral <= Max(0.0, c.outMax + d)
  }

  /** The raw derivative stays within the bound. */
  lemma {:induction false} DerivativeBounded(c: Config, drop: real, dt: real, m: real)
    requires c.kd >= 0.0 && dt >= 1.0 && Abs(drop) <= 2.0 * m
    ensures Abs(RawDerivative(c, drop, dt)) <= DerivativeBound(c, m)
  {}

  lemma {:induction false} TermSigns(c: Config, error: real, dt: real)
    requires c.kp >= 0.0 && c.ki >= 0.0 && dt >= 1.0
    ensures error >= 0.0 ==> ProportionalTerm(c, error) >= 0.0 && IntegralStep(c, error, dt) >= 0.0
    ensures error <= 0.0 ==> ProportionalTerm(c, error) <= 0.0 && IntegralStep(c, error, dt) <= 0.0
  {}

  /** Anti-windup itself: terms with the sign of the error keep the integral in its range. */
  lemma {:induction false} DecideBounded(c: Config, error: real, p: real, integral: real, di: real, d: real, bound: real)
    requires c.outMin <= c.outMax && Abs(d) <= bound
    requires error >= 0.0 ==> p >= 0.0 && di >= 0.0
    requires error <= 0.0 ==> p <= 0.0 && di <= 0.0
    requires Min(0.0, c.outMin - bound) <= integral <= Max(0.0, c.outMax + bound)
    ensures var (next, output) := Decide(c, error, p, integral, di, d);
            && Min(0.0, c.outMin - bound) <= next <= Max(0.0, c.outMax + bound)
            && c.outMin <= output <= c.outMax
  {}

  lemma {:induction false} StepBounded(c: Config, s: State, setpoint: real, measured: real, dtSec: int, m: real)
    requires Sane(c) && Bounded(c, s, m) && Abs(measured) <= m
    ensures var (r, output) := Step(c, s, setpoint, measured, dtSec);
            Bounded(c, r, m) && c.outMin <= output <= c.outMax
  {
    hide ProportionalTerm, IntegralStep, RawDerivative, DerivativeBound, Decide;
    var dt := Seconds(dtSec);
    var error := setpoint - measured;
    var dRaw := RawDerivative(c, s.prevTemp - measured, dt);
    DerivativeBounded(c, s.prevTemp - measured, dt, m);
    TermSigns(c, error, dt);
    DecideBounded(c, error, ProportionalTerm(c, error), s.integral, IntegralStep(c, error, dt),
                  Filter(s.dFilt, dRaw), DerivativeBound(c, m));
  }

  datatype Input = Input(setpoint: real, measured: real, dtSec: int)

  ghost function Run(c: Config, s: State, inputs: seq<Input>): State
    decreases |inputs|
  {
    if inputs == [] then s
    else Run(c, Step(c, s, inputs[0].setpoint, inputs[0].measured, inputs[0].dtSec).0, inputs[1..])
  }

  lemma {:induction false} RunBounded(c: Config, s: State, inputs: seq<Input>, m: real)
    requires Sane(c) && Bounded(c, s, m)
    requires forall i :: 0 <= i < |inputs| ==> Abs(inputs[i].measured) <= m
    ensures Bounded(c, Run(c, s, inputs), m)
    decreases |inputs|
  {
    hide Step, Bounded;
    if inputs != [] {
      var i := inputs[0];
      StepBounded(c, s, i.setpoint, i.measured, i.dtSec, m);
      RunBounded(c, Step(c, s, i.setpoint, i.measured, i.dtSec).0, inputs[1..], m);
    }
  }

  /** After any run from pid_init with measurements within [-m, m], whatever the setpoints and time
      steps: the filtered derivative is within D = 2 kd m, the integral within
      [min(0, outMin - D), max(0, outMax + D)], and the next output within the output range. */
  lemma {:induction false} AntiWindup(c: Config, inputs: seq<Input>, m: real, next: Input)
    requires Sane(c) && m >= 0.0 && Abs(next.measured) <= m
    requires forall i :: 0 <= i < |inputs| ==> Abs(inputs[i].measured) <= m
    ensures var s := Run(c, INITIAL, inputs);
            var d := DerivativeBound(c, m);
            && Abs(s.dFilt) <= d
            && Min(0.0, c.outMin - d) <= s.integral <= Max(0.0, c.outMax + d)
            && c.outMin <= Step(c, s, next.setpoint, next.measured, next.dtSec).1 <= c.outMax
  {
    ProductNonNegative(c.kd, m);
    assert Bounded(c, INITIAL, m);
    RunBounded(c, INITIAL, inputs, m);
    StepBounded(c, Run(c, INITIAL, inputs), next.setpoint, next.measured, next.dtSec, m);
    hide Step;
  }

  lemma {:induction false} StepIsNotZero(c: Config, error: real, dt: real)
    requires c.ki > 0.0 && error != 0.0 && dt >= 1.0
    ensures IntegralStep(c, error, dt) != 0.0
  {}

  /** The terms in the configuration's own fields. */
  lemma {:induction false} TermsAre(c: Config, e: real, dtSec: int)
    ensures ProportionalTerm(c, e) == c.kp * e
    ensures IntegralStep(c, e, Seconds(dtSec)) == c.ki * e * (if dtSec <= 0 then 1.0 else dtSec as real)
  {}

  /** The integral moves, by the whole step, exactly when the error does not push a saturated output further
      out, and the output is the sum of the terms within its range. */
  predicate Integrates(c: Config, s: State, e: real, p: real, step: real, r: State, output: real) {
    var raw := p + (s.integral + step) + r.dFilt;
    && (r.integral == s.integral + step <==> !(e > 0.0 && raw > c.outMax) && !(e < 0.0 && raw < c.outMin))
    && (r.integral == s.integral <==> (e > 0.0 && raw > c.outMax) || (e < 0.0 && raw < c.outMin))
    && output == Max(c.outMin, Min(c.outMax, raw))
  }

  lemma {:induction false} IntegratesTerm(c: Config, s: State, setpoint: real, measured: real, dtSec: int)
    requires Sane(c) && c.ki > 0.0 && setpoint != measured
    ensures var e := setpoint - measured;
            var (r, output) := Step(c, s, setpoint, measured, dtSec);
            Integrates(c, s, e, ProportionalTerm(c, e), IntegralStep(c, e, Seconds(dtSec)), r, output)
  {
    StepIsNotZero(c, setpoint - measured, Seconds(dtSec));
    hide ProportionalTerm, IntegralStep, RawDerivative;
  }

  /** The integral moves, by the whole ki e dt, exactly when the error does not push a saturated output
      further out: at the lower end with a positive error it grows, at the upper end with a negative one
      it shrinks, at once. */
  lemma {:induction false} IntegratesIff(c: Config, s: State, setpoint: real, measured: real, e: real, dtSec: int)
    requires Sane(c) && c.ki > 0.0 && setpoint != measured && e == setpoint - measured
    ensures var (r, output) := Step(c, s, setpoint, measured, dtSec);
            Integrates(c, s, e, c.kp * e, c.ki * e * (if dtSec <= 0 then 1.0 else dtSec as real), r, output)
  {
    hide ProportionalTerm, IntegralStep, Step, Seconds, Integrates;
    IntegratesTerm(c, s, setpoint, measured, dtSec);
    TermsAre(c, e, dtSec);
  }

  // ---------------------------------------------------------------- the three terms

  /** The filtered derivative keeps nine tenths and takes a tenth of kd times the fall per second: a rising
      temperature lowers it. */
  lemma {:induction false} DerivativeStep(c: Config, s: State, setpoint: real, measured: real, dtSec: int)
    requires c.kd > 0.0
    ensures var r := Step(c, s, setpoint, measured, dtSec).0;
            var dt := if dtSec <= 0 then 1.0 else dtSec as real;
            && r.dFilt == 0.9 * s.dFilt + 0.1 * (c.kd * (s.prevTemp - measured) / dt)
            && (measured > s.prevTemp <==> r.dFilt < 0.9 * s.dFilt)
            && r.prevTemp == measured
  {
    hide Step, RawDerivative, Seconds;
    var drop := s.prevTemp - measured;
    StepDerivative(c, s, setpoint, measured, dtSec);
    DerivativeIs(c, drop, dtSec);
    QuotientSign(c.kd, drop, if dtSec <= 0 then 1.0 else dtSec as real);
    var raw := RawDerivative(c, drop, Seconds(dtSec));
    assert raw < 0.0 <==> drop < 0.0;
  }

  lemma {:induction false} StepDerivative(c: Config, s: State, setpoint: real, measured: real, dtSec: int)
    ensures var r := Step(c, s, setpoint, measured, dtSec).0;
            r.dFilt == Filter(s.dFilt, RawDerivative(c, s.prevTemp - measured, Seconds(dtSec))) && r.prevTemp == measured
  {
    hide ProportionalTerm, IntegralStep, RawDerivative, Filter;
  }

  lemma {:induction false} DerivativeIs(c: Config, drop: real, dtSec: int)
    ensures Seconds(dtSec) == if dtSec <= 0 then 1.0 else dtSec as real
    ensures RawDerivative(c, drop, Seconds(dtSec)) == c.kd * drop / (if dtSec <= 0 then 1.0 else dtSec as real)
  {}

  lemma {:induction false} QuotientSign(kd: real, drop: real, dt: real)
    requires kd > 0.0 && dt >= 1.0
    ensures kd * drop / dt < 0.0 <==> drop < 0.0
  {
    var q := Divided(kd * drop, dt);
    SignOfFactor(kd, drop, kd * drop);
    SignOfFactor(dt, q, kd * drop);
  }

  /** No output of the run is at an end of the range. */
  predicate Unsaturated(c: Config, s: State, inputs: seq<Input>)
    decreases |inputs|
  {
    inputs == [] ||
    (var (r, output) := Step(c, s, inputs[0].setpoint, inputs[0].measured, inputs[0].dtSec);
     c.outMin < output < c.outMax && Unsaturated(c, r, inputs[1..]))
  }

  /** The sum of error times seconds over a run. */
  function ErrorSeconds(inputs: seq<Input>): real {
    if inputs == [] then 0.0
    else
      var i := inputs[0];
      (i.setpoint - i.measured) * (if i.dtSec <= 0 then 1.0 else i.dtSec as real) + ErrorSeconds(inputs[1..])
  }

  /** What a run adds to the integral if nothing freezes it. */
  function Gained(c: Config, inputs: seq<Input>): real {
    c.ki * ErrorSeconds(inputs)
  }

  lemma {:induction false} GainedFirst(c: Config, inputs: seq<Input>)
    requires inputs != []
    ensures var i := inputs[0];
            Gained(c, inputs) == IntegralStep(c, i.setpoint - i.measured, Seconds(i.dtSec)) + Gained(c, inputs[1..])
  {
    var i := inputs[0];
    var dt := Seconds(i.dtSec);
    var a, b := (i.setpoint - i.measured) * dt, ErrorSeconds(inputs[1..]);
    assert ErrorSeconds(inputs) == a + b;
    hide ErrorSeconds, Seconds;
    Distributes(c.ki, a, b);
    Regroups(c.ki, i.setpoint - i.measured, dt);
  }

  lemma {:induction false} Distributes(k: real, a: real, b: real)
    ensures k * (a + b) == k * a + k * b
  {}

  lemma {:induction false} Regroups(k: real, a: real, b: real)
    ensures k * (a * b) == k * a * b
  {}

  lemma {:induction false} UnsaturatedStep(c: Config, s: State, i: Input)
    requires var output := Step(c, s, i.setpoint, i.measured, i.dtSec).1; c.outMin < output < c.outMax
    ensures var (r, output) := Step(c, s, i.setpoint, i.measured, i.dtSec);
            && r.integral == s.integral + IntegralStep(c, i.setpoint - i.measured, Seconds(i.dtSec))
            && output == ProportionalTerm(c, i.setpoint - i.measured) + r.integral + r.dFilt
  {
    hide RawDerivative, Filter, IntegralStep, ProportionalTerm, Seconds;
  }

  lemma {:induction false} UnsaturatedTerms(c: Config, s: State, inputs: seq<Input>, last: Input)
    requires Unsaturated(c, s, inputs + [last])
    ensures var (r, output) := Step(c, Run(c, s, inputs), last.setpoint, last.measured, last.dtSec);
            && r.integral == s.integral + Gained(c, inputs + [last])
            && output == ProportionalTerm(c, last.setpoint - last.measured) + r.integral + r.dFilt
    decreases |inputs|
  {
    hide Step, Gained, IntegralStep, ProportionalTerm, Seconds;
    GainedFirst(c, inputs + [last]);
    if inputs == [] {
      assert inputs + [last] == [last] && [last][1..] == [];
      UnsaturatedStep(c, s, last);
      GainedNothing(c);
    } else {
      var i := inputs[0];
      assert (inputs + [last])[0] == i && (inputs + [last])[1..] == inputs[1..] + [last];
      UnsaturatedStep(c, s, i);
      UnsaturatedTerms(c, Step(c, s, i.setpoint, i.measured, i.dtSec).0, inputs[1..], last);
    }
  }

  lemma {:induction false} GainedNothing(c: Config)
    ensures Gained(c, []) == 0.0
  {}

  /** While no output is at an end, the integral is its start plus ki times the sum of error times seconds,
      and every output is kp times the error, plus the integral, plus the filtered derivative. */
  lemma {:induction false} UnsaturatedLaw(c: Config, s: State, inputs: seq<Input>, last: Input)
    requires Unsaturated(c, s, inputs + [last])
    ensures var (r, output) := Step(c, Run(c, s, inputs), last.setpoint, last.measured, last.dtSec);
            && r.integral == s.integral + c.ki * ErrorSeconds(inputs + [last])
            && output == c.kp * (last.setpoint - last.measured) + r.integral + r.dFilt
  {
    hide Step, Run, Unsaturated, ErrorSeconds;
    UnsaturatedTerms(c, s, inputs, last);
    TermsAre(c, last.setpoint - last.measured, last.dtSec);
  }

  // ---------------------------------------------------------------- a constant slope

  /** Each measurement lies `drop` below the one before it, dtSec seconds later. */
  predicate Falls(start: real, inputs: seq<Input>, drop: real, dtSec: int)
    decreases |inputs|
  {
    inputs == [] ||
    (inputs[0].dtSec == dtSec && start - inputs[0].measured == drop
     && Falls(inputs[0].measured, inputs[1..], drop, dtSec))
  }

  function Shrunk(n: nat, x: real): real {
    if n == 0 then x else 0.9 * Shrunk(n - 1, x)
  }

  lemma {:induction false} ShrunkFirst(n: nat, x: real)
    ensures Shrunk(n, 0.9 * x) == Shrunk(n + 1, x)
  {
    if n > 0 { ShrunkFirst(n - 1, x); }
  }

  /** Under a constant slope of the temperature the filtered derivative approaches the true one, kd times
      the slope, and after n steps exactly 0.9^n of its initial error is left. */
  lemma {:induction false} DerivativeLaw(c: Config, s: State, inputs: seq<Input>, drop: real, dtSec: int)
    requires Falls(s.prevTemp, inputs, drop, dtSec)
    ensures var slope := c.kd * drop / (if dtSec <= 0 then 1.0 else dtSec as real);
            Run(c, s, inputs).dFilt - slope == Shrunk(|inputs|, s.dFilt - slope)
    decreases |inputs|
  {
    var slope := RawDerivative(c, drop, Seconds(dtSec));
    assert slope == c.kd * drop / (if dtSec <= 0 then 1.0 else dtSec as real);
    hide RawDerivative;
    if inputs != [] {
      var i := inputs[0];
      var r := Step(c, s, i.setpoint, i.measured, i.dtSec).0;
      assert r.dFilt - slope == 0.9 * (s.dFilt - slope) && r.prevTemp == i.measured;
      hide Step;
      DerivativeLaw(c, r, inputs[1..], drop, dtSec);
      ShrunkFirst(|inputs| - 1, s.dFilt - slope);
    }
  }

  // ---------------------------------------------------------------- a constant error

  function Clamp(c: Config, x: real): real {
    Max(c.outMin, Min(c.outMax, x))
  }

  /** The integral of a pure PI controller after n steps of a constant positive error: it has
      followed the ramp, or it was frozen with the ramp's next value above the range. */
  ghost predicate OnRamp(c: Config, s: State, start: real, p: real, slope: real, ramp: real) {
    && s.dFilt == 0.0
    && s.integral <= start + ramp
    && (s.integral == start + ramp || p + s.integral + slope > c.outMax)
  }

  function Ramp(n: nat, slope: real): real {
    if n == 0 then 0.0 else Ramp(n - 1, slope) + slope
  }

  lemma {:induction false} RampIsProduct(n: nat, slope: real)
    ensures Ramp(n, slope) == n as real * slope
  {
    if n > 0 {
      RampIsProduct(n - 1, slope);
      OneMore((n - 1) as real, n as real, slope);
    }
  }

  lemma {:induction false} OneMore(x: real, y: real, slope: real)
    requires y == x + 1.0
    ensures x * slope + slope == y * slope
  {}

  /** n steps with error e held for dt seconds each; the measurements may drift with the setpoint. */
  ghost predicate HoldsError(inputs: seq<Input>, e: real, dtSec: int) {
    forall i :: 0 <= i < |inputs| ==> inputs[i].setpoint - inputs[i].measured == e && inputs[i].dtSec == dtSec
  }

  lemma {:induction false} RampStep(c: Config, s: State, start: real, i: Input, e: real, dtSec: int, n: nat)
    requires Sane(c) && c.kd == 0.0 && e > 0.0 && i.setpoint - i.measured == e && i.dtSec == dtSec
    requires OnRamp(c, s, start, ProportionalTerm(c, e), IntegralStep(c, e, Seconds(dtSec)),
                    Ramp(n, IntegralStep(c, e, Seconds(dtSec))))
    ensures var slope := IntegralStep(c, e, Seconds(dtSec));
            var (r, output) := Step(c, s, i.setpoint, i.measured, i.dtSec);
            && OnRamp(c, r, start, ProportionalTerm(c, e), slope, Ramp(n + 1, slope))
            && output == Clamp(c, ProportionalTerm(c, e) + start + Ramp(n + 1, slope))
  {}

  lemma {:induction false} RampRun(c: Config, s: State, start: real, inputs: seq<Input>, e: real, dtSec: int, n: nat)
    requires Sane(c) && c.kd == 0.0 && e > 0.0 && HoldsError(inputs, e, dtSec)
    requires OnRamp(c, s, start, ProportionalTerm(c, e), IntegralStep(c, e, Seconds(dtSec)),
                    Ramp(n, IntegralStep(c, e, Seconds(dtSec))))
    ensures OnRamp(c, Run(c, s, inputs), start, ProportionalTerm(c, e), IntegralStep(c, e, Seconds(dtSec)),
                   Ramp(n + |inputs|, IntegralStep(c, e, Seconds(dtSec))))
    decreases |inputs|
  {
    hide ProportionalTerm, IntegralStep, Step, OnRamp, Ramp;
    if inputs != [] {
      var i := inputs[0];
      RampStep(c, s, start, i, e, dtSec, n);
      RampRun(c, Step(c, s, i.setpoint, i.measured, i.dtSec).0, start, inputs[1..], e, dtSec, n + 1);
    }
  }

  lemma {:induction false} RampOutput(c: Config, s: State, inputs: seq<Input>, e: real, dtSec: int, last: Input)
    requires Sane(c) && c.kd == 0.0 && s.dFilt == 0.0 && e > 0.0
    requires HoldsError(inputs + [last], e, dtSec)
    ensures Step(c, Run(c, s, inputs), last.setpoint, last.measured, last.dtSec).1 ==
            Clamp(c, ProportionalTerm(c, e) + s.integral + Ramp(|inputs| + 1, IntegralStep(c, e, Seconds(dtSec))))
  {
    hide ProportionalTerm, IntegralStep, Step, Ramp;
    var slope := IntegralStep(c, e, Seconds(dtSec));
    assert HoldsError(inputs, e, dtSec) by {
      forall i | 0 <= i < |inputs|
        ensures inputs[i].setpoint - inputs[i].measured == e && inputs[i].dtSec == dtSec
      {
        assert (inputs + [last])[i] == inputs[i];
      }
    }
    assert (inputs + [last])[|inputs|] == last;
    RampIsProduct(0, slope);
    RampRun(c, s, s.integral, inputs, e, dtSec, 0);
    RampStep(c, Run(c, s, inputs), s.integral, last, e, dtSec, |inputs|);
  }

  /** A pure PI controller under a constant positive error e: the output of step n is exactly the
      clamped ramp kp e + I0 + n ki e dt. So it reaches outMax at the first n with
      n ki e dt >= outMax - kp e - I0, never leaves it after that, and never overshoots. */
  lemma {:induction false} ConstantErrorLaw(c: Config, s: State, inputs: seq<Input>, e: real, dtSec: int, last: Input,
                                            n: nat)
    requires Sane(c) && c.kd == 0.0 && s.dFilt == 0.0 && e > 0.0
    requires HoldsError(inputs + [last], e, dtSec) && n == |inputs| + 1
    ensures var slope := c.ki * e * (if dtSec <= 0 then 1.0 else dtSec as real);
            Step(c, Run(c, s, inputs), last.setpoint, last.measured, last.dtSec).1 ==
            Max(c.outMin, Min(c.outMax, c.kp * e + s.integral + n as real * slope))
  {
    hide ProportionalTerm, IntegralStep, Step, Run, HoldsError, Seconds, Ramp;
    RampOutput(c, s, inputs, e, dtSec, last);
    RampIsProduct(n, IntegralStep(c, e, Seconds(dtSec)));
    TermsAre(c, e, dtSec);
  }

  /** The output of step n is at its maximum if and only if n is at least the least number with n slopes
      covering the gap. */
  predicate SaturatesFrom(c: Config, output: real, n: nat, gap: real, slope: real)
    requires slope > 0.0
  {
    && (output == c.outMax <==> n >= StepsToSaturate(gap, slope))
    && (n >= StepsToSaturate(gap, slope) <==> n as real * slope >= gap)
  }

  lemma {:induction false} SaturatesTerms(c: Config, s: State, inputs: seq<Input>, e: real, dtSec: int, last: Input)
    requires Sane(c) && c.kd == 0.0 && s.dFilt == 0.0 && e > 0.0 && c.outMin < c.outMax
    requires IntegralStep(c, e, Seconds(dtSec)) > 0.0
    requires HoldsError(inputs + [last], e, dtSec)
    ensures var output := Step(c, Run(c, s, inputs), last.setpoint, last.measured, last.dtSec).1;
            SaturatesFrom(c, output, |inputs| + 1, c.outMax - (ProportionalTerm(c, e) + s.integral),
                          IntegralStep(c, e, Seconds(dtSec)))
  {
    hide Step, Run, HoldsError, Clamp, StepsToSaturate, ProportionalTerm, IntegralStep, Seconds, Ramp;
    RampOutput(c, s, inputs, e, dtSec, last);
    var n, slope := |inputs| + 1, IntegralStep(c, e, Seconds(dtSec));
    var base := ProportionalTerm(c, e) + s.integral;
    var gap, climb := c.outMax - base, n as real * slope;
    RampIsProduct(n, slope);
    var output := Step(c, Run(c, s, inputs), last.setpoint, last.measured, last.dtSec).1;
    assert output == Clamp(c, base + climb);
    ClampAtMax(c, base + climb);
    CeilingIff(gap, slope, n);
    assert SaturatesFrom(c, output, n, gap, slope);
  }

  /** So with a positive integral gain the output reaches outMax, within a number of steps that can be
      computed beforehand, and stays there: step n saturates if and only if n is at least that number, the
      least with n ki e dt >= outMax - kp e - I0. */
  lemma {:induction false} SaturatesExactlyFrom(c: Config, s: State, inputs: seq<Input>, e: real, dtSec: int, last: Input)
    requires Sane(c) && c.kd == 0.0 && s.dFilt == 0.0 && e > 0.0
    requires c.outMin < c.outMax && c.ki > 0.0
    requires HoldsError(inputs + [last], e, dtSec)
    ensures var slope := c.ki * e * (if dtSec <= 0 then 1.0 else dtSec as real);
            var output := Step(c, Run(c, s, inputs), last.setpoint, last.measured, last.dtSec).1;
            slope > 0.0 && SaturatesFrom(c, output, |inputs| + 1, c.outMax - (c.kp * e + s.integral), slope)
  {
    hide Step, Run, HoldsError, SaturatesFrom, ProportionalTerm, IntegralStep, Seconds;
    ProductPositive(c.ki, e);
    ProductPositive(c.ki * e, if dtSec <= 0 then 1.0 else dtSec as real);
    TermsAre(c, e, dtSec);
    SaturatesTerms(c, s, inputs, e, dtSec, last);
  }

  lemma {:induction false} ClampAtMax(c: Config, x: real)
    requires c.outMin < c.outMax
    ensures Clamp(c, x) == c.outMax <==> x >= c.outMax
  {}

  /** The least n with n slopes covering the gap. */
  function StepsToSaturate(gap: real, slope: real): int
    requires slope > 0.0
  {
    -((-gap / slope).Floor)
  }

  lemma {:induction false} CeilingIff(gap: real, slope: real, n: int)
    requires slope > 0.0
    ensures n as real * slope >= gap <==> n >= StepsToSaturate(gap, slope)
  {
    var q := -gap / slope;
    var x := n as real;
    Undivided(gap, slope, q);
    assert n >= StepsToSaturate(gap, slope) <==> x + q >= 0.0;
    hide StepsToSaturate;
    if x + q >= 0.0 {
      ProductNonNegative(x + q, slope);
      AddFactors(x, q, x + q, slope);
    } else {
      ProductNegative(x + q, slope);
      AddFactors(x, q, x + q, slope);
      assert x * slope + q * slope < 0.0;
    }
  }

  lemma {:induction false} Undivided(gap: real, slope: real, q: real)
    requires slope > 0.0 && q == -gap / slope
    ensures q * slope == -gap
  {}

  lemma {:induction false} AddFactors(x: real, q: real, sum: real, slope: real)
    requires sum == x + q
    ensures sum * slope == x * slope + q * slope
  {}

  lemma {:induction false} ProductNegative(a: real, b: real)
    requires a < 0.0 && b > 0.0
    ensures a * b < 0.0
  {}
}
