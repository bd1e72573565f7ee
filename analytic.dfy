/** The closed-form solution of the diffusion equation dU/dt = 13 d2U/dx2 that
    seeds every fixed cell of a temperature table (main.py:24-27).

    Dafny's reals have neither `exp` nor `sqrt`, so the two transcendental
    functions are supplied by the caller in an `Elementary` value; the model
    only relies on the two facts stated by `Sound`. */
module Analytic {

  /** The transcendental functions the closed form is built from. */
  datatype Elementary = Elementary(exp: real -> real, sqrt: real -> real)

  /** What the model assumes of the supplied functions: `exp` is positive
      everywhere and `sqrt` is positive on positive arguments. */
  ghost predicate Sound(e: Elementary) {
    (forall y :: e.exp(y) > 0.0) && (forall d :: d > 0.0 ==> e.sqrt(d) > 0.0)
  }

  /** The closed form is defined only where its denominator 156*t + 1 is positive
      (the source's `math.sqrt` raises on a negative argument). */
  predicate InDomain(t: real) {
    156.0 * t + 1.0 > 0.0
  }

  /** `function(x, t)`: (1 / sqrt(156t + 1)) * exp((-3x^2 + 52t + 2x) / (156t + 1)).
      The field is strictly positive wherever it is defined. */
  function Temperature(e: Elementary, x: real, t: real): (u: real)
    requires Sound(e) && InDomain(t)
    ensures u > 0.0
  {
    var denominator := 156.0 * t + 1.0;
    var expNumerator := -3.0 * x * x + 52.0 * t + 2.0 * x;
    var s := e.sqrt(denominator);
    var g := e.exp(expNumerator / denominator);
    assert 1.0 / s > 0.0;
    (1.0 / s) * g
  }
}
