/**
 * The option pricer: the Black-Scholes fair value of a European call or put,
 * with the intrinsic-value fallback for an expired or zero-volatility option,
 * and the vega (the price's sensitivity to volatility).
 */
module Pricer {
  import opened Primitives

  /** The option side; the engine encodes it as the flag +1 (call) or -1 (put). */
  datatype Side = Call | Put

  function Flag(side: Side): real
  {
    if side == Call then 1.0 else -1.0
  }

  function Max(a: real, b: real): real
  {
    if a >= b then a else b
  }

  /** The value of exercising now: max(0, (S - K) * flag). */
  function Intrinsic(spot: real, strike: real, side: Side): (v: real)
    ensures v >= 0.0
    ensures side == Call ==> v == (if spot > strike then spot - strike else 0.0)
    ensures side == Put ==> v == (if strike > spot then strike - spot else 0.0)
  {
    Max(0.0, (spot - strike) * Flag(side))
  }

  /**
   * d1 = (ln(S/K) + (r + sigma^2/2) T) / (sigma sqrt T), evaluated in the
   * host language's order: S/K, its logarithm, sqrt T, then the division,
   * each of which can raise.
   */
  function D1(m: Libm, spot: real, strike: real, expiry: real, rate: real, sigma: real): (d: Result<real>)
    ensures d.Ok? <==> strike != 0.0 && spot / strike > 0.0 && expiry > 0.0 && sigma != 0.0
    ensures strike == 0.0 ==> d == Err(ZeroDivision)
    ensures strike != 0.0 && spot / strike <= 0.0 ==> d == Err(MathDomain)
    ensures strike != 0.0 && spot / strike > 0.0 && expiry < 0.0 ==> d == Err(MathDomain)
    ensures strike != 0.0 && spot / strike > 0.0 && expiry >= 0.0 && (expiry == 0.0 || sigma == 0.0) ==> d == Err(ZeroDivision)
  {
    var ratio :- Divide(spot, strike);
    var logRatio :- Log(m, ratio);
    var rootT :- Sqrt(m, expiry);
    Divide(logRatio + (rate + 0.5 * sigma * sigma) * expiry, sigma * rootT)
  }

  /** d2 = d1 - sigma sqrt T. */
  function D2(m: Libm, expiry: PosReal, sigma: real, d1: real): real
  {
    d1 - sigma * m.sqrt(expiry)
  }

  /** The strike discounted to today: K exp(-r T). */
  function Discounted(m: Libm, strike: real, expiry: real, rate: real): real
  {
    strike * m.exp(-rate * expiry)
  }

  /**
   * Fair value of the option. When the expiry or the volatility is not
   * positive, the intrinsic value; otherwise the Black-Scholes closed form,
   * which raises when the strike is zero or S/K is not positive.
   */
  function BlackScholesPrice(m: Libm, spot: real, strike: real, expiry: real, rate: real, sigma: real, side: Side): (p: Result<real>)
    ensures expiry <= 0.0 || sigma <= 0.0 ==> p == Ok(Intrinsic(spot, strike, side))
    ensures p.Ok? <==> expiry <= 0.0 || sigma <= 0.0 || (strike != 0.0 && spot / strike > 0.0)
  {
    if expiry <= 0.0 || sigma <= 0.0 then
      Ok(Intrinsic(spot, strike, side))
    else
      var d1 :- D1(m, spot, strike, expiry, rate, sigma);
      Ok(ClosedForm(m, spot, strike, expiry, rate, sigma, d1, side))
  }

  /**
   * The Black-Scholes value given d1, with d2 = d1 - sigma sqrt T:
   * a call is worth S N(d1) - K e^(-rT) N(d2), a put K e^(-rT) N(-d2) - S N(-d1).
   */
  function ClosedForm(m: Libm, spot: real, strike: real, expiry: PosReal, rate: real, sigma: real, d1: real, side: Side): real
  {
    var d2 := D2(m, expiry, sigma, d1);
    if side == Call then
      spot * StandardNormalCdf(m, d1) - Discounted(m, strike, expiry, rate) * StandardNormalCdf(m, d2)
    else
      Discounted(m, strike, expiry, rate) * StandardNormalCdf(m, -d2) - spot * StandardNormalCdf(m, -d1)
  }
  /**
   * Vega = S sqrt(T) phi(d1). There is no degenerate-case guard: an expiry
   * that is not positive or a zero volatility raises.
   */
  function Vega(m: Libm, spot: real, strike: real, expiry: real, rate: real, sigma: real): (v: Result<real>)
    ensures v.Ok? <==> strike != 0.0 && spot / strike > 0.0 && expiry > 0.0 && sigma != 0.0
    ensures v.Ok? ==> v.value != 0.0 && (v.value > 0.0 <==> spot > 0.0)
  {
    var d1 :- D1(m, spot, strike, expiry, rate, sigma);
    // d1 exists only for a positive expiry, so sqrt T cannot raise here
    Ok(spot * m.sqrt(expiry) * StandardNormalPdf(m, d1))
  }

  /** At expiry (or at zero volatility) a call minus a put is worth S - K. */
  lemma IntrinsicParity(spot: real, strike: real)
    ensures Intrinsic(spot, strike, Call) - Intrinsic(spot, strike, Put) == spot - strike
  {
  }

  /**
   * Put-call parity of the closed form: C - P = S - K exp(-r T), whenever the
   * library's erf is odd and the closed form does not raise.
   */
  lemma PutCallParity(m: Libm, spot: real, strike: real, expiry: real, rate: real, sigma: real)
    requires ErfIsOdd(m)
    requires expiry > 0.0 && sigma > 0.0
    requires strike != 0.0 && spot / strike > 0.0
    ensures BlackScholesPrice(m, spot, strike, expiry, rate, sigma, Call).Ok?
    ensures BlackScholesPrice(m, spot, strike, expiry, rate, sigma, Put).Ok?
    ensures BlackScholesPrice(m, spot, strike, expiry, rate, sigma, Call).value
          - BlackScholesPrice(m, spot, strike, expiry, rate, sigma, Put).value
         == spot - Discounted(m, strike, expiry, rate)
  {
    var d1 := D1(m, spot, strike, expiry, rate, sigma).value;
    ClosedFormParity(m, spot, strike, expiry, rate, sigma, d1);
  }

  /** Parity holds for the closed form at every d1. */
  lemma ClosedFormParity(m: Libm, spot: real, strike: real, expiry: PosReal, rate: real, sigma: real, d1: real)
    requires ErfIsOdd(m)
    ensures ClosedForm(m, spot, strike, expiry, rate, sigma, d1, Call) - ClosedForm(m, spot, strike, expiry, rate, sigma, d1, Put)
         == spot - Discounted(m, strike, expiry, rate)
  {
    var d2 := D2(m, expiry, sigma, d1);
    var disc := Discounted(m, strike, expiry, rate);
    var n1, n2 := StandardNormalCdf(m, d1), StandardNormalCdf(m, d2);
    var r1, r2 := StandardNormalCdf(m, -d1), StandardNormalCdf(m, -d2);
    var call := ClosedForm(m, spot, strike, expiry, rate, sigma, d1, Call);
    var put := ClosedForm(m, spot, strike, expiry, rate, sigma, d1, Put);
    assert call == spot * n1 - disc * n2 by { CallSide(m, spot, strike, expiry, rate, sigma, d1); }
    assert put == disc * r2 - spot * r1 by { PutSide(m, spot, strike, expiry, rate, sigma, d1); }
    assert r1 == 1.0 - n1 && r2 == 1.0 - n2 by { CdfReflection(m, d1); CdfReflection(m, d2); }
    ParityAlgebra(spot, disc, n1, n2, r1, r2, call, put);
  }

  /** The call closed form in terms of d1 and d2. */
  lemma CallSide(m: Libm, spot: real, strike: real, expiry: PosReal, rate: real, sigma: real, d1: real)
    ensures ClosedForm(m, spot, strike, expiry, rate, sigma, d1, Call)
               == spot * StandardNormalCdf(m, d1) - Discounted(m, strike, expiry, rate) * StandardNormalCdf(m, D2(m, expiry, sigma, d1))
  {
  }

  /** The put closed form in terms of -d2 and -d1. */
  lemma PutSide(m: Libm, spot: real, strike: real, expiry: PosReal, rate: real, sigma: real, d1: real)
    ensures ClosedForm(m, spot, strike, expiry, rate, sigma, d1, Put)
               == Discounted(m, strike, expiry, rate) * StandardNormalCdf(m, -D2(m, expiry, sigma, d1)) - spot * StandardNormalCdf(m, -d1)
  {
  }

  /** The algebra of parity once N(-x) = 1 - N(x) is known. */
  lemma ParityAlgebra(s: real, disc: real, n1: real, n2: real, r1: real, r2: real, call: real, put: real)
    requires call == s * n1 - disc * n2
    requires put == disc * r2 - s * r1
    requires r1 == 1.0 - n1 && r2 == 1.0 - n2
    ensures call - put == s - disc
  {
  }
}
