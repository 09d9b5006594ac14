/**
 * Pricing primitives: the standard normal distribution functions, built on an
 * abstract floating-point library, and the failure type that stands for the
 * exceptions the host language raises on division by zero or on a math domain
 * error.
 */
module Primitives {

  /** Positive reals: the domain of `log`, and the range of `exp` and of `sqrt` on positives. */
  type PosReal = x: real | x > 0.0 witness 1.0

  /** The range of the error function. */
  type ErfRange = y: real | -1.0 <= y <= 1.0 witness 0.0

  /** The two exceptions the engine can raise: division by zero, and a math domain error (log of a non-positive, sqrt of a negative). */
  datatype Fault = ZeroDivision | MathDomain

  datatype Result<+T> = Ok(value: T) | Err(fault: Fault) {
    predicate IsFailure() { Err? }

    function PropagateFailure<U>(): Result<U>
      requires Err?
    {
      Err(fault)
    }

    function Extract(): T
      requires Ok?
    {
      value
    }
  }

  /**
   * The transcendental functions of the host math library. Their values are
   * left abstract; the types record only what the model relies on and what the
   * real functions satisfy: exp is positive, sqrt maps positives to positives,
   * log is applied to positives only, erf lies in [-1, 1], pi is positive.
   */
  datatype Libm = Libm(
    erf: real -> ErfRange,
    exp: real -> PosReal,
    log: PosReal -> real,
    sqrt: PosReal -> PosReal,
    pi: PosReal)

  /** The error function is odd, as the true erf is: erf(-y) = -erf(y). */
  ghost predicate ErfIsOdd(m: Libm)
  {
    forall y: real, z: real :: y == -z ==> m.erf(y) == -m.erf(z)
  }

  /** Division that raises on a zero divisor, as the host language does. */
  function Divide(a: real, b: real): (q: Result<real>)
    ensures q.Ok? <==> b != 0.0
    ensures q.Err? ==> q.fault == ZeroDivision
  {
    if b == 0.0 then Err(ZeroDivision) else Ok(a / b)
  }

  /** Natural logarithm that raises a math domain error on a non-positive argument. */
  function Log(m: Libm, x: real): (l: Result<real>)
    ensures l.Ok? <==> x > 0.0
    ensures l.Err? ==> l.fault == MathDomain
  {
    if x <= 0.0 then Err(MathDomain) else Ok(m.log(x) as real)
  }

  /** Square root that raises a math domain error on a negative argument; the root of zero is zero. */
  function Sqrt(m: Libm, x: real): (s: Result<real>)
    ensures s.Ok? <==> x >= 0.0
    ensures s.Ok? ==> (s.value > 0.0 <==> x > 0.0) && s.value >= 0.0
    ensures s.Err? ==> s.fault == MathDomain
  {
    if x < 0.0 then Err(MathDomain) else if x == 0.0 then Ok(0.0) else Ok(m.sqrt(x) as real)
  }

  /** Phi(x) = 0.5 * (1 + erf(x / sqrt 2)), a probability. */
  function StandardNormalCdf(m: Libm, x: real): (p: real)
    ensures 0.0 <= p <= 1.0
  {
    0.5 * (1.0 + m.erf(x / m.sqrt(2.0)))
  }

  /** phi(x) = exp(-x*x/2) / sqrt(2 pi), a density. */
  function StandardNormalPdf(m: Libm, x: real): (d: real)
    ensures d > 0.0
  {
    (1.0 / m.sqrt(2.0 * m.pi)) * m.exp(-0.5 * x * x)
  }

  /** With an odd erf, the distribution function is point-symmetric about (0, 1/2). */
  lemma CdfReflection(m: Libm, x: real)
    requires ErfIsOdd(m)
    ensures StandardNormalCdf(m, -x) == 1.0 - StandardNormalCdf(m, x)
  {
    var s := m.sqrt(2.0);
    assert -x / s == -(x / s);
    assert m.erf(-x / s) == -m.erf(x / s);
  }
}
