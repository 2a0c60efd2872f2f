/** The two-state Kalman filter (temperature and its rate of change), over the reals. */
module Kalman2D {
  import opened Reals

  /** The filter's fields. */
  datatype Filter = Filter(x0: real, x1: real, P00: real, P01: real, P11: real,
                           lastTimeMs: real, initialized: bool)

  const Q0 := 0.0001
  const Q1 := 0.000005
  const R := 0.25
  const PRIOR := 1000.0

  function Reset(f: Filter, temp: real, priorRate: real): Filter {
    Filter(temp, priorRate, PRIOR, 0.0, PRIOR, 0.0, true)
  }

  /** The clamped time step in seconds. */
  function TimeStep(f: Filter, timeMs: real): (dt: real)
    ensures 0.001 <= dt <= 60.0
  {
    var dt := (timeMs - f.lastTimeMs) / 1000.0;
    var dt' := if dt < 0.001 then 0.001 else dt;
    if dt' > 60.0 then 60.0 else dt'
  }

  /** The predicted temperature variance. */
  function Spread(P00: real, P01: real, P11: real, dt: real): real {
    P00 + 2.0 * dt * P01 + dt * dt * P11 + Q0 * dt
  }

  function Drift(x: real, v: real, dt: real): real {
    x + v * dt
  }

  /** The predict step over dt seconds. */
  function Predict(f: Filter, dt: real): Filter {
    f.(x0 := Drift(f.x0, f.x1, dt),
       P00 := Spread(f.P00, f.P01, f.P11, dt),
       P01 := Drift(f.P01, f.P11, dt),
       P11 := f.P11 + Q1 * dt)
  }

  /** The update step on a predicted state. */
  function Correct(p: Filter, measurement: real): Filter
    requires p.P00 + R != 0.0
  {
    var s := p.P00 + R;
    Blend(p, measurement - p.x0, p.P00 / s, p.P01 / s)
  }

  /** Moves the state by the gains times the innovation and shrinks the covariance. */
  function Blend(p: Filter, innov: real, k0: real, k1: real): Filter {
    p.(x0 := p.x0 + k0 * innov,
       x1 := p.x1 + k1 * innov,
       P00 := (1.0 - k0) * p.P00,
       P01 := (1.0 - k0) * p.P01,
       P11 := p.P11 - k1 * p.P01)
  }

  /** The covariance is positive definite. */
  predicate PositiveDefinite(f: Filter) {
    f.P00 > 0.0 && f.P11 > 0.0 && f.P00 * f.P11 > f.P01 * f.P01
  }

  function Update(f: Filter, measurement: real, timeMs: real): Filter
    requires PositiveDefinite(f)
  {
    if !f.initialized then Reset(f, measurement, f.x1).(lastTimeMs := timeMs)
    else
      var dt := TimeStep(f, timeMs);
      PredictKeepsDefinite(f, dt);
      Correct(Predict(f, dt).(lastTimeMs := timeMs), measurement)
  }

  // ---------------------------------------------------------------- real arithmetic

  lemma {:induction false} AddNoise(a: real, b: real, c: real, n0: real, n1: real)
    requires a > 0.0 && c > 0.0 && a * c > b * b && n0 > 0.0 && n1 > 0.0
    ensures (a + n0) * (c + n1) > b * b
  {}

  lemma {:induction false} MovedIsDefinite(a: real, b: real, c: real, dt: real, moved: real, cross: real)
    requires c > 0.0 && a * c > b * b
    requires moved == a + 2.0 * dt * b + dt * dt * c && cross == b + dt * c
    ensures moved > 0.0 && moved * c > cross * cross
  {}

  lemma {:induction false} PredictParts(f: Filter, dt: real) returns (moved: real, cross: real)
    requires PositiveDefinite(f)
    ensures moved > 0.0 && moved * f.P11 > cross * cross
    ensures var p := Predict(f, dt);
            p.P00 == moved + Q0 * dt && p.P01 == cross && p.P11 == f.P11 + Q1 * dt
  {
    moved := f.P00 + 2.0 * dt * f.P01 + dt * dt * f.P11;
    cross := f.P01 + dt * f.P11;
    MovedIsDefinite(f.P00, f.P01, f.P11, dt, moved, cross);
  }

  /** Moving the state forward keeps the determinant and adding process noise raises it. */
  lemma {:induction false} PredictKeepsDefinite(f: Filter, dt: real)
    requires PositiveDefinite(f) && dt > 0.0
    ensures PositiveDefinite(Predict(f, dt))
  {
    hide Predict;
    var moved, cross := PredictParts(f, dt);
    AddNoise(moved, cross, f.P11, Q0 * dt, Q1 * dt);
  }

  lemma {:induction false} CorrectedDeterminant(a: real, b: real, c: real, s: real, ka: real, kb: real)
    requires s == a + R && ka * s == a && kb * s == b
    ensures s * ((1.0 - ka) * a) == R * a
    ensures s * ((1.0 - ka) * b) == R * b
    ensures s * (c - kb * b) == (a * c - b * b) + R * c
  {}

  /** The corrected state with its gains, free of division. */
  lemma {:induction false} CorrectParts(p: Filter, z: real) returns (s: real, k: real, q: Filter)
    requires PositiveDefinite(p)
    ensures s == p.P00 + R && s > 0.0 && k * s == z - p.x0 && q == Correct(p, z)
    ensures q.x0 == p.x0 + p.P00 * k && q.x1 == p.x1 + p.P01 * k
    ensures s * q.P00 == R * p.P00 && s * q.P01 == R * p.P01
    ensures s * q.P11 == (p.P00 * p.P11 - p.P01 * p.P01) + R * p.P11
    ensures q.initialized == p.initialized
  {
    s := p.P00 + R;
    var k0 := Divided(p.P00, s);
    var k1 := Divided(p.P01, s);
    k := Divided(z - p.x0, s);
    q := Blend(p, z - p.x0, k0, k1);
    assert q == Correct(p, z) by { hide Blend; }
    CorrectedDeterminant(p.P00, p.P01, p.P11, s, k0, k1);
    GainTimesInnovation(p.P00, s, k0, k, z - p.x0);
    GainTimesInnovation(p.P01, s, k1, k, z - p.x0);
  }

  lemma {:induction false} GainTimesInnovation(x: real, s: real, kx: real, k: real, innov: real)
    requires kx * s == x && k * s == innov
    ensures kx * innov == x * k
  {}

  /** A correction keeps the covariance positive definite and brings the temperature variance
      below that of a measurement. */
  lemma {:induction false} CorrectKeepsDefinite(p: Filter, z: real)
    requires PositiveDefinite(p)
    ensures PositiveDefinite(Correct(p, z)) && Correct(p, z).P00 < R
  {}

  // ---------------------------------------------------------------- whole runs

  datatype Call = ResetCall(temp: real, priorRate: real) | UpdateCall(measurement: real, timeMs: real)

  /** The state the constructor leaves. */
  function Initial(): Filter {
    Filter(0.0, 0.03, PRIOR, 0.0, PRIOR, 0.0, true)
  }

  ghost predicate Good(f: Filter) {
    PositiveDefinite(f) && f.initialized
  }

  lemma {:induction false} UpdateKeepsGood(f: Filter, measurement: real, timeMs: real)
    requires Good(f)
    ensures Good(Update(f, measurement, timeMs)) && Update(f, measurement, timeMs).P00 < R
  {
    var dt := TimeStep(f, timeMs);
    PredictKeepsDefinite(f, dt);
    var p := Predict(f, dt).(lastTimeMs := timeMs);
    CorrectKeepsDefinite(p, measurement);
    CorrectKeepsFlag(p, measurement);
    hide Correct, PositiveDefinite;
  }

  lemma {:induction false} PredictKeepsRest(f: Filter, dt: real, timeMs: real)
    ensures Predict(f, dt).initialized == f.initialized
    ensures Predict(f, dt).(lastTimeMs := timeMs) == Predict(f.(lastTimeMs := timeMs), dt)
  {}

  lemma {:induction false} CorrectKeepsFlag(p: Filter, z: real)
    requires p.P00 + R != 0.0
    ensures Correct(p, z).initialized == p.initialized && Correct(p, z).lastTimeMs == p.lastTimeMs
  {}

  ghost function Apply(f: Filter, c: Call): (r: Filter)
    requires Good(f)
    ensures Good(r) && (c.UpdateCall? ==> r.P00 < R)
  {
    match c
    case ResetCall(temp, priorRate) => Reset(f, temp, priorRate)
    case UpdateCall(m, t) => UpdateKeepsGood(f, m, t); Update(f, m, t)
  }

  ghost function Run(f: Filter, calls: seq<Call>): (r: Filter)
    requires Good(f)
    ensures Good(r)
    decreases |calls|
  {
    if calls == [] then f else Run(Apply(f, calls[0]), calls[1..])
  }

  lemma {:induction false} RunSplit(f: Filter, before: seq<Call>, last: Call)
    requires Good(f)
    ensures Run(f, before + [last]) == Apply(Run(f, before), last)
    decreases |before|
  {
    hide Apply;
    if before == [] {
      assert (before + [last])[1..] == [];
    } else {
      assert (before + [last])[1..] == before[1..] + [last];
      RunSplit(Apply(f, before[0]), before[1..], last);
    }
  }

  lemma {:induction false} InitialIsGood()
    ensures Good(Initial())
  {}

  /** From construction on, over any run of resets and updates with any measurements and times, the
      covariance is positive definite (so the rate variance whose root the prediction takes is
      positive), and after each update the temperature variance is below that of a measurement. */
  lemma {:induction false} EveryRunStaysDefinite(calls: seq<Call>)
    ensures var f := Run(Initial(), calls);
            && f.P00 > 0.0 && f.P11 > 0.0 && f.P00 * f.P11 > f.P01 * f.P01
            && (calls != [] && calls[|calls| - 1].UpdateCall? ==> f.P00 < R)
  {
    hide Apply, Run;
    if calls != [] {
      var before, last := calls[..|calls| - 1], calls[|calls| - 1];
      assert calls == before + [last];
      InitialIsGood();
      RunSplit(Initial(), before, last);
    }
  }

  // ---------------------------------------------------------------- what the steps compute

  /** The variance of u times the temperature plus v times the rate. */
  function Variance(f: Filter, u: real, v: real): real {
    u * u * f.P00 + 2.0 * u * v * f.P01 + v * v * f.P11
  }

  /** The predicted variance of every combination of temperature and rate is the old variance of the
      combination it comes from (the temperature moves by the rate times dt), plus the process noise;
      and the predicted state is the old one moved. */
  lemma {:induction false} PredictPropagatesVariance(f: Filter, dt: real, u: real, v: real)
    ensures Variance(Predict(f, dt), u, v) == Variance(f, u, v + u * dt) + Q0 * dt * (u * u) + Q1 * dt * (v * v)
    ensures Predict(f, dt).x0 == f.x0 + f.x1 * dt && Predict(f, dt).x1 == f.x1
  {}

  /** The corrected covariance is the inverse of (predicted inverse + diag(1/R, 0)), written without
      division: entry by entry, inverse(P') * det(P') * R * det(P) on both sides. */
  lemma {:induction false} InformationForm(p: Filter, z: real)
    requires PositiveDefinite(p)
    ensures var q := Correct(p, z);
            var d := p.P00 * p.P11 - p.P01 * p.P01;
            var d' := q.P00 * q.P11 - q.P01 * q.P01;
            && (R * d) * q.P11 == (d + R * p.P11) * d'
            && (R * d) * q.P01 == (R * p.P01) * d'
            && (R * d) * q.P00 == (R * p.P00) * d'
  {}

  /** How badly the state (y0, y1) fits the prediction and the measurement z: the Mahalanobis
      distance to the predicted state plus the squared residual over R, both scaled by det(P) * R. */
  function Misfit(p: Filter, z: real, y0: real, y1: real): real {
    var u, v := y0 - p.x0, y1 - p.x1;
    R * (p.P11 * u * u - 2.0 * p.P01 * u * v + p.P00 * v * v)
    + (p.P00 * p.P11 - p.P01 * p.P01) * ((z - y0) * (z - y0))
  }

  lemma {:induction false} Square(x: real) returns (r: real)
    ensures r == x * x && r >= 0.0
  {
    r := x * x;
  }

  lemma {:induction false} ScaledSquare(a: real, x: real) returns (r: real)
    requires a > 0.0
    ensures r == a * (x * x) && r >= 0.0 && (x != 0.0 ==> r > 0.0)
  {
    var m := if x > 0.0 then x else -x;
    r := a * m * m;
    if x != 0.0 {
      ProductPositive(a, m);
      ProductPositive(a * m, m);
    }
  }

  lemma {:induction false} NonNegativeFactor(form: real, a: real, r: real)
    requires a > 0.0 && r == a * form
    ensures (r >= 0.0 ==> form >= 0.0) && (r > 0.0 ==> form > 0.0)
  {}

  lemma {:induction false} FormIsPositive(a: real, b: real, c: real, p: real, q: real, form: real)
    requires a > 0.0 && a * c > b * b
    requires form == c * p * p - 2.0 * b * p * q + a * q * q
    ensures form >= 0.0 && (p != 0.0 || q != 0.0 ==> form > 0.0)
  {
    var r1 := ScaledSquare(a * c - b * b, p);
    var r2 := Square(a * q - b * p);
    assert a * form == (a * c - b * b) * (p * p) + (a * q - b * p) * (a * q - b * p);
    NonNegativeFactor(form, a, r1 + r2);
    if p == 0.0 {
      var r3 := ScaledSquare(a, q);
      assert form == a * (q * q);
    }
  }

  /** The update is the best compromise: among all states it is the one and only minimum of the
      misfit to the prediction and the measurement together. */
  lemma {:induction false} CorrectionIsOptimal(p: Filter, z: real, y0: real, y1: real)
    requires PositiveDefinite(p)
    ensures var q := Correct(p, z);
            && Misfit(p, z, q.x0, q.x1) <= Misfit(p, z, y0, y1)
            && (Misfit(p, z, q.x0, q.x1) == Misfit(p, z, y0, y1) <==> y0 == q.x0 && y1 == q.x1)
  {
    hide Correct, Misfit, PositiveDefinite;
    var s, k, q := CorrectParts(p, z);
    InnovationLeft(p.P00, s, k, z - p.x0);
    var e0, e1 := y0 - q.x0, y1 - q.x1;
    assert q.x0 + e0 == y0 && q.x1 + e1 == y1;
    var form, sq := MisfitGrows(p, z, q.x0, q.x1, k, e0, e1);
    OnlyMinimum(Misfit(p, z, q.x0, q.x1), Misfit(p, z, y0, y1), form, sq);
  }

  lemma {:induction false} InnovationLeft(a: real, s: real, k: real, innov: real)
    requires s == a + R && k * s == innov
    ensures innov - a * k == R * k
  {}

  /** By how much the misfit grows away from the corrected state. */
  lemma {:induction false} MisfitGrows(p: Filter, z: real, x0: real, x1: real, k: real, e0: real, e1: real)
    returns (form: real, sq: real)
    requires PositiveDefinite(p)
    requires x0 == p.x0 + p.P00 * k && x1 == p.x1 + p.P01 * k && z - x0 == R * k
    ensures Misfit(p, z, x0 + e0, x1 + e1) == Misfit(p, z, x0, x1) + R * form + sq
    ensures form >= 0.0 && sq >= 0.0 && (e0 != 0.0 || e1 != 0.0 ==> form > 0.0)
  {
    hide Misfit;
    MisfitAround(p, z, x0, x1, k, e0, e1);
    form := p.P11 * e0 * e0 - 2.0 * p.P01 * e0 * e1 + p.P00 * e1 * e1;
    FormIsPositive(p.P00, p.P01, p.P11, e0, e1, form);
    sq := ScaledSquare(p.P00 * p.P11 - p.P01 * p.P01, e0);
  }

  lemma {:induction false} OnlyMinimum(least: real, other: real, form: real, sq: real)
    requires other == least + R * form + sq && form >= 0.0 && sq >= 0.0
    ensures least <= other && (form > 0.0 ==> least < other)
  {}

  lemma {:induction false} MisfitAround(p: Filter, z: real, x0: real, x1: real, k: real, e0: real, e1: real)
    requires x0 == p.x0 + p.P00 * k && x1 == p.x1 + p.P01 * k && z - x0 == R * k
    ensures Misfit(p, z, x0 + e0, x1 + e1) ==
            Misfit(p, z, x0, x1)
            + R * (p.P11 * e0 * e0 - 2.0 * p.P01 * e0 * e1 + p.P00 * e1 * e1)
            + (p.P00 * p.P11 - p.P01 * p.P01) * (e0 * e0)
  {}

  // ---------------------------------------------------------------- the clock

  /** The temperature at time ms on the line that passes through a at 0 and rises by b per second. */
  function Line(a: real, b: real, ms: real): real {
    a + b * (ms / 1000.0)
  }

  /** Measurements on a line, each a millisecond to a minute after the one before, the first after `last`. */
  predicate OnLine(calls: seq<Call>, a: real, b: real, last: real)
    decreases |calls|
  {
    calls == [] ||
    (calls[0].UpdateCall? && 1.0 <= calls[0].timeMs - last <= 60000.0
     && calls[0].measurement == Line(a, b, calls[0].timeMs) && OnLine(calls[1..], a, b, calls[0].timeMs))
  }

  function LastTime(calls: seq<Call>, last: real): real
    decreases |calls|
  {
    if calls == [] then last else LastTime(calls[1..], if calls[0].UpdateCall? then calls[0].timeMs else last)
  }

  lemma {:induction false} LineAdvances(a: real, b: real, from: real, to: real)
    ensures Line(a, b, from) + b * ((to - from) / 1000.0) == Line(a, b, to)
  {
    var x, y := from / 1000.0, to / 1000.0;
    assert (to - from) / 1000.0 == y - x;
    assert b * (y - x) == b * y - b * x;
  }

  lemma {:induction false} NoInnovation(p: Filter, z: real)
    requires p.P00 + R > 0.0 && z == p.x0
    ensures Correct(p, z).x0 == p.x0 && Correct(p, z).x1 == p.x1
  {}

  lemma {:induction false} PositiveVariance(f: Filter)
    requires PositiveDefinite(f)
    ensures f.P00 > 0.0
  {}

  lemma {:induction false} StepBetween(f: Filter, timeMs: real)
    requires 1.0 <= timeMs - f.lastTimeMs <= 60000.0
    ensures TimeStep(f, timeMs) == (timeMs - f.lastTimeMs) / 1000.0
  {}

  lemma {:induction false} PredictMoves(f: Filter, dt: real)
    ensures Predict(f, dt).x0 == f.x0 + f.x1 * dt && Predict(f, dt).x1 == f.x1
  {}

  lemma {:induction false} UpdateFromStep(f: Filter, measurement: real, timeMs: real)
    requires Good(f)
    ensures Predict(f, TimeStep(f, timeMs)).P00 + R > 0.0
    ensures Update(f, measurement, timeMs) == Correct(Predict(f, TimeStep(f, timeMs)), measurement).(lastTimeMs := timeMs)
  {
    hide TimeStep, Predict, PositiveDefinite, Blend;
    var dt := TimeStep(f, timeMs);
    PredictKeepsDefinite(f, dt);
    PositiveVariance(Predict(f, dt));
    CorrectKeepsRest(Predict(f, dt), measurement, timeMs);
  }

  lemma {:induction false} CorrectKeepsRest(p: Filter, z: real, timeMs: real)
    requires p.P00 + R != 0.0
    ensures Correct(p.(lastTimeMs := timeMs), z) == Correct(p, z).(lastTimeMs := timeMs)
  {
    var s := p.P00 + R;
    BlendKeepsRest(p, z - p.x0, p.P00 / s, p.P01 / s, timeMs);
    hide Blend;
  }

  lemma {:induction false} BlendKeepsRest(p: Filter, innov: real, k0: real, k1: real, timeMs: real)
    ensures Blend(p.(lastTimeMs := timeMs), innov, k0, k1) == Blend(p, innov, k0, k1).(lastTimeMs := timeMs)
  {
    var q := p.(lastTimeMs := timeMs);
    SameProduct(1.0 - k0, q.P00, p.P00);
    SameProduct(1.0 - k0, q.P01, p.P01);
    SameProduct(k1, q.P01, p.P01);
  }

  lemma {:induction false} SameProduct(k: real, x: real, y: real)
    requires x == y
    ensures k * x == k * y
  {}

  lemma {:induction false} LineStep(f: Filter, a: real, b: real, measurement: real, timeMs: real)
    requires Good(f) && f.x0 == Line(a, b, f.lastTimeMs) && f.x1 == b
    requires 1.0 <= timeMs - f.lastTimeMs <= 60000.0 && measurement == Line(a, b, timeMs)
    ensures var r := Update(f, measurement, timeMs);
            r.x0 == Line(a, b, timeMs) && r.x1 == b && r.lastTimeMs == timeMs
  {
    hide PositiveDefinite, Predict, Correct, TimeStep, Line;
    var dt := TimeStep(f, timeMs);
    StepBetween(f, timeMs);
    UpdateFromStep(f, measurement, timeMs);
    PredictMoves(f, dt);
    LineAdvances(a, b, f.lastTimeMs, timeMs);
    NoInnovation(Predict(f, dt), measurement);
  }

  lemma {:induction false} TracksLine(f: Filter, a: real, b: real, calls: seq<Call>)
    requires Good(f) && f.x0 == Line(a, b, f.lastTimeMs) && f.x1 == b && OnLine(calls, a, b, f.lastTimeMs)
    ensures var r := Run(f, calls);
            r.lastTimeMs == LastTime(calls, f.lastTimeMs) && r.x0 == Line(a, b, r.lastTimeMs) && r.x1 == b
    decreases |calls|
  {
    hide Good, Line, Update;
    if calls != [] {
      LineStep(f, a, b, calls[0].measurement, calls[0].timeMs);
      TracksLine(Apply(f, calls[0]), a, b, calls[1..]);
    }
  }

  /** The filter's clock is the time between measurements: from a state on a line, measurements on that line,
      however they are spaced within a millisecond and a minute, leave the state on it after every one. */
  lemma {:induction false} LineIsTracked(f: Filter, a: real, b: real, calls: seq<Call>)
    requires Good(f) && f.x0 == a + b * (f.lastTimeMs / 1000.0) && f.x1 == b
    requires OnLine(calls, a, b, f.lastTimeMs)
    ensures var r := Run(f, calls);
            && r.lastTimeMs == LastTime(calls, f.lastTimeMs)
            && r.x0 == a + b * (r.lastTimeMs / 1000.0) && r.x1 == b
  {
    hide Good, Run, OnLine, LastTime;
    TracksLine(f, a, b, calls);
  }

  /** A gap of more than a minute counts as a minute, and one of less than a millisecond, or a clock that has
      gone back, as a millisecond: only the time remembered differs. */
  lemma {:induction false} GapsAreClamped(f: Filter, measurement: real, timeMs: real)
    requires Good(f)
    ensures timeMs >= f.lastTimeMs + 60000.0 ==>
              Update(f, measurement, timeMs) == Update(f, measurement, f.lastTimeMs + 60000.0).(lastTimeMs := timeMs)
    ensures timeMs <= f.lastTimeMs + 1.0 ==>
              Update(f, measurement, timeMs) == Update(f, measurement, f.lastTimeMs + 1.0).(lastTimeMs := timeMs)
  {
    var least, most := f.lastTimeMs + 1.0, f.lastTimeMs + 60000.0;
    assert TimeStep(f, least) == 0.001 && TimeStep(f, most) == 60.0;
    assert timeMs >= most ==> TimeStep(f, timeMs) == 60.0;
    assert timeMs <= least ==> TimeStep(f, timeMs) == 0.001;
    UpdateFromStep(f, measurement, timeMs);
    UpdateFromStep(f, measurement, least);
    UpdateFromStep(f, measurement, most);
    hide Update, TimeStep, Predict, Correct;
  }

  // ---------------------------------------------------------------- the object

  class KalmanFilter {
    var x0: real
    var x1: real
    var P00: real
    var P01: real
    var P11: real
    var lastTimeMs: real
    var initialized: bool

    ghost function View(): Filter
      reads this
    {
      Filter(x0, x1, P00, P01, P11, lastTimeMs, initialized)
    }

    ghost predicate Valid()
      reads this
    {
      PositiveDefinite(View())
    }

    constructor ()
      ensures Valid() && View() == Initial()
    {
      x0, x1 := 0.0, 0.03;
      P00, P01, P11 := PRIOR, 0.0, PRIOR;
      lastTimeMs := 0.0;
      initialized := true;
    }

    method ResetTo(temp: real, priorRate: real)
      modifies this
      ensures Valid() && View() == Reset(old(View()), temp, priorRate)
    {
      x0 := temp;
      x1 := priorRate;
      P00 := PRIOR;
      P01 := 0.0;
      P11 := PRIOR;
      lastTimeMs := 0.0;
      initialized := true;
    }

    /** The predict step, into local values. */
    method Predicted(dt: real) returns (x0Pred: real, p00Pred: real, p01Pred: real, p11Pred: real)
      ensures Filter(x0Pred, x1, p00Pred, p01Pred, p11Pred, lastTimeMs, initialized) == Predict(View(), dt)
    {
      x0Pred := x0 + x1 * dt;
      p00Pred := P00 + 2.0 * dt * P01 + dt * dt * P11 + Q0 * dt;
      p01Pred := P01 + dt * P11;
      p11Pred := P11 + Q1 * dt;
    }

    /** The update step, from the predicted values. */
    method CorrectFrom(x0Pred: real, p00Pred: real, p01Pred: real, p11Pred: real, measurement: real)
      requires p00Pred + R != 0.0
      modifies this`x0, this`x1, this`P00, this`P01, this`P11
      ensures View() == Correct(Filter(x0Pred, old(x1), p00Pred, p01Pred, p11Pred, lastTimeMs, initialized), measurement)
    {
      var innov := measurement - x0Pred;
      var s := p00Pred + R;
      var k0 := p00Pred / s;
      var k1 := p01Pred / s;
      x0 := x0Pred + k0 * innov;
      x1 := x1 + k1 * innov;
      P00 := (1.0 - k0) * p00Pred;
      P01 := (1.0 - k0) * p01Pred;
      P11 := p11Pred - k1 * p01Pred;
    }

    method Measure(measurement: real, timeMs: real) returns (estimate: real)
      requires Valid()
      modifies this
      ensures Valid() && View() == Update(old(View()), measurement, timeMs)
      ensures estimate == x0 && (old(initialized) ==> P00 < R)
    {
      var before := Filter(x0, x1, P00, P01, P11, lastTimeMs, initialized);
      if !initialized {
        ResetTo(measurement, x1);
        lastTimeMs := timeMs;
        return measurement;
      }
      UpdateKeepsGood(before, measurement, timeMs);
      var dt := (timeMs - lastTimeMs) / 1000.0;
      lastTimeMs := timeMs;
      if dt < 0.001 { dt := 0.001; }
      if dt > 60.0 { dt := 60.0; }
      assert dt == TimeStep(before, timeMs);
      hide Predict, Correct;
      PredictKeepsDefinite(before, dt);
      ghost var p := Predict(before, dt).(lastTimeMs := timeMs);
      PredictKeepsRest(before, dt, timeMs);
      var x0Pred, p00Pred, p01Pred, p11Pred := Predicted(dt);
      CorrectFrom(x0Pred, p00Pred, p01Pred, p11Pred, measurement);
      CorrectKeepsFlag(p, measurement);
      estimate := x0;
    }
  }
}
