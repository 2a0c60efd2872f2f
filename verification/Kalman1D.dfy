/** The scalar filter that smooths the calibration factor and the raw gas inputs. */
module Kalman1D {
  import opened Reals

  datatype Filter = Filter(x: real, p: real)

  function Reset(init: real): Filter {
    Filter(init, 1.0)
  }

  function Gain(p: real, q: real, r: real): real
    requires p + q + r > 0.0
  {
    (p + q) / (p + q + r)
  }

  function Update(f: Filter, q: real, r: real, measurement: real): Filter
    requires f.p + q + r > 0.0
  {
    var k := Gain(f.p, q, r);
    Filter(f.x + k * (measurement - f.x), (f.p + q) * (1.0 - k))
  }

  /** Sensible parameters and a usable variance. */
  predicate Usable(f: Filter, q: real, r: real) {
    f.p > 0.0 && q >= 0.0 && r > 0.0
  }

  lemma {:induction false} Complement(k: real, a: real, b: real)
    requires k * (a + b) == a
    ensures (1.0 - k) * (a + b) == b
  {}

  lemma {:induction false} Quotient(a: real, b: real)
    requires a > 0.0 && b > 0.0
    ensures 0.0 < a / (a + b) < 1.0 && 1.0 - a / (a + b) == b / (a + b)
  {
    var s := a + b;
    var k := Divided(a, s);
    var m := Divided(b, s);
    Complement(k, a, b);
    SignOfFactor(s, k, a);
    SignOfFactor(s, 1.0 - k, b);
    Difference(1.0 - k, m, s);
    SignOfFactor(s, 1.0 - k - m, 0.0);
    Difference(m, 1.0 - k, s);
    SignOfFactor(s, m - (1.0 - k), 0.0);
  }

  lemma {:induction false} Scaled(k: real, d: real)
    requires 0.0 < k < 1.0
    ensures d >= 0.0 ==> 0.0 <= k * d <= d
    ensures d <= 0.0 ==> d <= k * d <= 0.0
  {}

  /** The gain lies strictly between 0 and 1, the variance stays positive, and the new estimate lies
      between the old one and the measurement. */
  lemma {:induction false} UpdateStaysInHull(f: Filter, q: real, r: real, measurement: real)
    requires Usable(f, q, r)
    ensures 0.0 < Gain(f.p, q, r) < 1.0
    ensures var g := Update(f, q, r, measurement);
            && Usable(g, q, r)
            && (f.x <= measurement ==> f.x <= g.x <= measurement)
            && (f.x >= measurement ==> measurement <= g.x <= f.x)
  {
    Quotient(f.p + q, r);
    var k := Gain(f.p, q, r);
    ProductPositive(f.p + q, 1.0 - k);
    Scaled(k, measurement - f.x);
    hide Gain;
  }

  /** The new estimate is the mean of the old one and the measurement, weighted by the other's variance;
      and the new precision is the sum of theirs: p' (p + q + r) = (p + q) r. */
  lemma {:induction false} UpdateIsWeightedMean(f: Filter, q: real, r: real, measurement: real)
    requires Usable(f, q, r)
    ensures var g := Update(f, q, r, measurement);
            var a := f.p + q;
            && g.x * (a + r) == r * f.x + a * measurement
            && g.p * (a + r) == a * r
  {
    var a := f.p + q;
    var k := Divided(a, a + r);
    Weighted(f.x, measurement, k, a, r);
  }

  lemma {:induction false} Weighted(x: real, m: real, k: real, a: real, r: real)
    requires k * (a + r) == a
    ensures (x + k * (m - x)) * (a + r) == r * x + a * m
    ensures a * (1.0 - k) * (a + r) == a * r
  {
    assert (x + k * (m - x)) * (a + r) == x * (a + r) + (k * (a + r)) * (m - x);
    assert a * (1.0 - k) * (a + r) == a * ((a + r) - k * (a + r));
  }

  /** After a reset the start value weighs as much as r and the first measurement as 1 + q. */
  lemma {:induction false} FirstUpdate(init: real, q: real, r: real, measurement: real)
    requires q >= 0.0 && r > 0.0
    ensures Reset(init).x == init
    ensures Update(Reset(init), q, r, measurement).x * (1.0 + q + r) == r * init + (1.0 + q) * measurement
  {
    UpdateIsWeightedMean(Reset(init), q, r, measurement);
  }

  function Abs(x: real): real {
    if x < 0.0 then -x else x
  }

  lemma {:induction false} SmallerShare(r: real, a: real, q: real)
    requires r > 0.0 && q >= 0.0 && a > 0.0
    ensures r / (a + q + r) <= r / (q + r)
  {
    var w := q + r;
    var x := Divided(r, a + w);
    var y := Divided(r, w);
    SignOfFactor(a + w, x, r);
    ProductPositive(x, a);
    Shares(x, y, a, w);
    SignOfFactor(w, y - x, x * a);
  }

  lemma {:induction false} Shares(x: real, y: real, a: real, w: real)
    requires x * (a + w) == y * w
    ensures (y - x) * w == x * a
  {}

  lemma {:induction false} Contract(d: real, share: real, bound: real)
    requires 0.0 <= share <= bound
    ensures Abs(share * d) <= bound * Abs(d)
  {}

  /** Each update brings the estimate closer to the measurement by at least the steady factor r/(q+r). */
  lemma {:induction false} UpdateApproaches(f: Filter, q: real, r: real, measurement: real)
    requires Usable(f, q, r)
    ensures Abs(Update(f, q, r, measurement).x - measurement) <= r / (q + r) * Abs(f.x - measurement)
  {
    Quotient(f.p + q, r);
    var k := Gain(f.p, q, r);
    var d := f.x - measurement;
    assert Update(f, q, r, measurement).x - measurement == (1.0 - k) * d;
    SmallerShare(r, f.p, q);
    assert 1.0 - k == r / (f.p + q + r);
    Contract(d, 1.0 - k, r / (q + r));
  }

  class KalmanFilter {
    var x: real
    var p: real
    const q: real
    const r: real

    ghost function View(): Filter
      reads this
    {
      Filter(x, p)
    }

    constructor (init: real, q: real, r: real)
      ensures View() == Reset(init) && this.q == q && this.r == r
    {
      this.x, this.p, this.q, this.r := init, 1.0, q, r;
    }

    method ResetTo(init: real)
      modifies this
      ensures View() == Reset(init)
    {
      x := init;
      p := 1.0;
    }

    method Measure(measurement: real) returns (estimate: real)
      requires Usable(View(), q, r)
      modifies this
      ensures View() == Update(old(View()), q, r, measurement) && Usable(View(), q, r)
      ensures estimate == x
    {
      UpdateStaysInHull(View(), q, r, measurement);
      p := p + q;
      var k := p / (p + r);
      x := x + k * (measurement - x);
      p := p * (1.0 - k);
      estimate := x;
    }
  }
}
