/** The forward difference quotient (f(x+h) - f(x)) / h, used by both Euler
    steppers. The function f is an opaque value of type real -> real. */
module Differences {

  /** forward_difference(f, x, h). Python raises ZeroDivisionError when h is zero,
      so the caller must supply a nonzero step. The result is the unique d with
      h * d == f(x + h) - f(x). */
  function ForwardDifference(f: real -> real, x: real, h: real): (d: real)
    requires h != 0.0
    ensures h * d == f(x + h) - f(x)
  {
    (f(x + h) - f(x)) / h
  }

  /** f is sampled only at x and x + h: two functions that agree there have the
      same forward difference. */
  lemma DifferenceDependsOnlyOnSamples(f: real -> real, g: real -> real, x: real, h: real)
    requires h != 0.0
    requires f(x) == g(x) && f(x + h) == g(x + h)
    ensures ForwardDifference(f, x, h) == ForwardDifference(g, x, h)
  {
  }

  /** A constant function has forward difference 0, at every point and for every step. */
  lemma ConstantHasZeroDifference(f: real -> real, c: real, x: real, h: real)
    requires h != 0.0
    requires forall u :: f(u) == c
    ensures ForwardDifference(f, x, h) == 0.0
  {
  }

  /** For an affine function u => a*u + b the forward difference is exactly the
      slope a, at every point and for every nonzero step. */
  lemma AffineDifferenceIsSlope(f: real -> real, a: real, b: real, x: real, h: real)
    requires h != 0.0
    requires forall u :: f(u) == a * u + b
    ensures ForwardDifference(f, x, h) == a
  {
    assert f(x + h) - f(x) == a * h;
  }
}
