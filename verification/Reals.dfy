/** Small facts of real arithmetic that the solver is better told than left to find. */
module Reals {

  lemma {:induction false} ProductPositive(a: real, b: real)
    requires a > 0.0 && b > 0.0
    ensures a * b > 0.0
  {}

  lemma {:induction false} ProductNonNegative(a: real, b: real)
    requires a >= 0.0 && b >= 0.0
    ensures a * b >= 0.0
  {}

  lemma {:induction false} Divided(a: real, s: real) returns (k: real)
    requires s > 0.0
    ensures k == a / s && k * s == a
  {
    k := a / s;
  }

  lemma {:induction false} SignOfFactor(s: real, x: real, y: real)
    requires s > 0.0 && x * s == y
    ensures (x > 0.0 <==> y > 0.0) && (x >= 0.0 <==> y >= 0.0)
  {}

  lemma {:induction false} Difference(x: real, y: real, s: real)
    ensures (x - y) * s == x * s - y * s
  {}
}
