/** Central-difference derivative: the fallback df the Newton solver is
    given when the caller supplies no analytic derivative. */
module Derivative {

  const DefaultStep: real := 0.000001

  /** The derivative estimate with step h. The closure captures only f and
      h; it divides by 2h, so h must not be zero. */
  function NumericDerivative(f: real -> real, h: real): (df: real -> real)
    requires h != 0.0
    ensures forall x :: df(x) * (2.0 * h) == f(x + h) - f(x - h)
  {
    x => (f(x + h) - f(x - h)) / (2.0 * h)
  }

  /** The estimate at x is zero exactly when f takes the same value at
      x - h and x + h. */
  lemma FlatGivesZero(f: real -> real, h: real, x: real)
    requires h != 0.0
    ensures NumericDerivative(f, h)(x) == 0.0 <==> f(x + h) == f(x - h)
  {
    var df := NumericDerivative(f, h);
    assert df(x) * (2.0 * h) == f(x + h) - f(x - h);
  }

  /** The estimate at x depends on f only through f(x + h) and f(x - h):
      two functions that agree there have the same estimate at x. */
  lemma OnlySamplesMatter(f: real -> real, g: real -> real, h: real, x: real)
    requires h != 0.0
    requires f(x + h) == g(x + h) && f(x - h) == g(x - h)
    ensures NumericDerivative(f, h)(x) == NumericDerivative(g, h)(x)
  {
    var df, dg := NumericDerivative(f, h), NumericDerivative(g, h);
    assert df(x) * (2.0 * h) == dg(x) * (2.0 * h);
  }

  /** Replacing h by -h gives the same estimate. */
  lemma StepSignIrrelevant(f: real -> real, h: real, x: real)
    requires h != 0.0
    ensures NumericDerivative(f, -h)(x) == NumericDerivative(f, h)(x)
  {
    var d1 := NumericDerivative(f, h)(x);
    var d2 := NumericDerivative(f, -h)(x);
    assert x + -h == x - h && x - -h == x + h;
    assert d1 * (2.0 * h) == f(x + h) - f(x - h);
    assert d2 * (2.0 * -h) == f(x - h) - f(x + h);
    assert (d1 - d2) * (2.0 * h) == 0.0;
  }

  /** The analytic derivative of c2*x^2 + c1*x + c0. */
  function QuadraticSlope(c2: real, c1: real, x: real): real
  {
    2.0 * c2 * x + c1
  }

  /** The central difference is exact on quadratics, for every step h:
      it agrees with the analytic derivative 2*c2*x + c1. */
  lemma ExactOnQuadratics(c2: real, c1: real, c0: real, h: real, x: real)
    requires h != 0.0
    ensures NumericDerivative(y => c2 * y * y + c1 * y + c0, h)(x) == QuadraticSlope(c2, c1, x)
  {
    var q := y => c2 * y * y + c1 * y + c0;
    var d := NumericDerivative(q, h)(x);
    assert d * (2.0 * h) == q(x + h) - q(x - h);
    calc {
      q(x + h) - q(x - h);
      c2 * (x + h) * (x + h) + c1 * (x + h) + c0 - (c2 * (x - h) * (x - h) + c1 * (x - h) + c0);
      (2.0 * c2 * x + c1) * (2.0 * h);
    }
    assert (d - QuadraticSlope(c2, c1, x)) * (2.0 * h) == 0.0;
  }
}
