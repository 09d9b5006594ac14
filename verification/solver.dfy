/**
 * The implied-volatility solver: a bounded Newton-Raphson iteration that
 * inverts the pricer, starting from a fixed guess and clamping every step
 * into (0, 5].
 *
 * `Newton` specifies the iteration for an arbitrary pricer and vega (any
 * functions of the volatility, which may raise); the lemmas about it hold
 * whatever those functions return. `ImpliedVolatility` is the loop itself,
 * run on the Black-Scholes pricer and vega, and is proved to compute `Newton`.
 */
module Solver {
  import opened Primitives
  import opened Pricer

  const InitialGuess: real := 0.5
  const Tolerance: real := 0.00001
  const MaxIterations: nat := 100
  /** What a step to a non-positive volatility is replaced by. */
  const Floor: real := 0.01
  /** The largest volatility the solver returns. */
  const Cap: real := 5.0

  function Abs(x: real): real
  {
    if x < 0.0 then -x else x
  }

  /** The clamp after each step: non-positive values go to 0.01, values above 5 to 5. */
  function Clamp(x: real): (c: real)
    ensures 0.0 < c <= Cap
    ensures 0.0 < x <= Cap ==> c == x
    ensures x <= 0.0 ==> c == Floor
    ensures x > Cap ==> c == Cap
  {
    var raised := if x <= 0.0 then Floor else x;
    if raised > Cap then Cap else raised
  }

  /** The outcome of one iteration: the solve ends with a result, or goes on from a new volatility. */
  datatype Step = Stop(result: Result<real>) | Continue(next: real)

  /**
   * One iteration at `sigma`: price, stop if within tolerance, otherwise take
   * vega, stop if it is zero, otherwise step to Clamp(sigma + diff / vega).
   * A fault in the pricer or in vega ends the solve with that fault.
   */
  function NewtonStep(marketPrice: real, price: real -> Result<real>, vega: real -> Result<real>, sigma: real): (s: Step)
    ensures s.Stop? && s.result.Ok? ==> s.result.value == sigma
    ensures s.Continue? ==> 0.0 < s.next <= Cap
  {
    match price(sigma)
    case Err(f) => Stop(Err(f))
    case Ok(p) =>
      var diff := marketPrice - p;
      if Abs(diff) < Tolerance then Stop(Ok(sigma))
      else
        match vega(sigma)
        case Err(f) => Stop(Err(f))
        case Ok(v) =>
          if v == 0.0 then Stop(Ok(sigma)) else Continue(Clamp(sigma + diff / v))
  }

  /** The solve from `sigma` with `fuel` iterations left; when they run out, the current volatility. */
  function Newton(marketPrice: real, price: real -> Result<real>, vega: real -> Result<real>, sigma: real, fuel: nat): Result<real>
    decreases fuel
  {
    if fuel == 0 then Ok(sigma)
    else
      match NewtonStep(marketPrice, price, vega, sigma)
      case Stop(r) => r
      case Continue(next) => Newton(marketPrice, price, vega, next, fuel - 1)
  }

  /** The volatilities at which the solve from `sigma` calls the pricer, in order. */
  function Trace(marketPrice: real, price: real -> Result<real>, vega: real -> Result<real>, sigma: real, fuel: nat): (t: seq<real>)
    ensures |t| <= fuel
    ensures fuel > 0 ==> |t| > 0 && t[0] == sigma
    decreases fuel
  {
    if fuel == 0 then []
    else
      match NewtonStep(marketPrice, price, vega, sigma)
      case Stop(_) => [sigma]
      case Continue(next) => [sigma] + Trace(marketPrice, price, vega, next, fuel - 1)
  }

  /** Started inside (0, 5], the solve returns a volatility inside (0, 5], whatever the pricer and vega do. */
  lemma {:induction false} NewtonInRange(marketPrice: real, price: real -> Result<real>, vega: real -> Result<real>, sigma: real, fuel: nat)
    requires 0.0 < sigma <= Cap
    ensures Newton(marketPrice, price, vega, sigma, fuel).Ok? ==> 0.0 < Newton(marketPrice, price, vega, sigma, fuel).value <= Cap
    decreases fuel
  {
    if fuel > 0 {
      match NewtonStep(marketPrice, price, vega, sigma)
      case Stop(r) =>
      case Continue(next) => NewtonInRange(marketPrice, price, vega, next, fuel - 1);
    }
  }

  /** Every volatility the pricer is called at lies in (0, 5] when the start does. */
  lemma {:induction false} TraceInRange(marketPrice: real, price: real -> Result<real>, vega: real -> Result<real>, sigma: real, fuel: nat)
    requires 0.0 < sigma <= Cap
    ensures forall i :: 0 <= i < |Trace(marketPrice, price, vega, sigma, fuel)| ==>
              0.0 < Trace(marketPrice, price, vega, sigma, fuel)[i] <= Cap
    decreases fuel
  {
    if fuel > 0 {
      match NewtonStep(marketPrice, price, vega, sigma)
      case Stop(r) =>
      case Continue(next) => TraceInRange(marketPrice, price, vega, next, fuel - 1);
    }
  }

  /** Consecutive pricer calls are one clamped Newton step apart. */
  lemma {:induction false} TraceSteps(marketPrice: real, price: real -> Result<real>, vega: real -> Result<real>, sigma: real, fuel: nat, i: nat)
    requires i + 1 < |Trace(marketPrice, price, vega, sigma, fuel)|
    ensures var t := Trace(marketPrice, price, vega, sigma, fuel);
            NewtonStep(marketPrice, price, vega, t[i]) == Continue(t[i + 1])
    decreases fuel
  {
    match NewtonStep(marketPrice, price, vega, sigma)
    case Stop(r) =>
    case Continue(next) =>
      if i > 0 {
        TraceSteps(marketPrice, price, vega, next, fuel - 1, i - 1);
      }
  }

  /** A residual within tolerance at the current volatility returns it unchanged. */
  lemma NewtonConverged(marketPrice: real, price: real -> Result<real>, vega: real -> Result<real>, sigma: real, fuel: nat)
    requires fuel > 0
    requires price(sigma).Ok? && Abs(marketPrice - price(sigma).value) < Tolerance
    ensures Newton(marketPrice, price, vega, sigma, fuel) == Ok(sigma)
  {
  }

  /** A zero vega at the current volatility returns it unchanged. */
  lemma NewtonStalled(marketPrice: real, price: real -> Result<real>, vega: real -> Result<real>, sigma: real, fuel: nat)
    requires fuel > 0
    requires price(sigma).Ok? && Abs(marketPrice - price(sigma).value) >= Tolerance
    requires vega(sigma) == Ok(0.0)
    ensures Newton(marketPrice, price, vega, sigma, fuel) == Ok(sigma)
  {
  }

  /** Otherwise the solve goes on from Clamp(sigma + diff / vega) with one iteration fewer. */
  lemma NewtonAdvances(marketPrice: real, price: real -> Result<real>, vega: real -> Result<real>, sigma: real, fuel: nat)
    requires fuel > 0
    requires price(sigma).Ok? && Abs(marketPrice - price(sigma).value) >= Tolerance
    requires vega(sigma).Ok? && vega(sigma).value != 0.0
    ensures var next := Clamp(sigma + (marketPrice - price(sigma).value) / vega(sigma).value);
            Newton(marketPrice, price, vega, sigma, fuel) == Newton(marketPrice, price, vega, next, fuel - 1)
  {
  }

  /** When the pricer and vega do not raise on (0, 5], neither does a solve started there. */
  lemma {:induction false} NewtonFaultFree(marketPrice: real, price: real -> Result<real>, vega: real -> Result<real>, sigma: real, fuel: nat)
    requires forall s :: 0.0 < s <= Cap ==> price(s).Ok? && vega(s).Ok?
    requires 0.0 < sigma <= Cap
    ensures Newton(marketPrice, price, vega, sigma, fuel).Ok?
    decreases fuel
  {
    if fuel > 0 {
      match NewtonStep(marketPrice, price, vega, sigma)
      case Stop(r) =>
      case Continue(next) => NewtonFaultFree(marketPrice, price, vega, next, fuel - 1);
    }
  }

  /**
   * The solve from the initial guess, after the pricer calls `done`, has
   * reached `sigma` with `left` iterations to go: what remains of it is the
   * solve from `sigma`.
   */
  ghost predicate Reached(marketPrice: real, price: real -> Result<real>, vega: real -> Result<real>, done: seq<real>, sigma: real, left: nat)
  {
    && Newton(marketPrice, price, vega, sigma, left) == Newton(marketPrice, price, vega, InitialGuess, MaxIterations)
    && done + Trace(marketPrice, price, vega, sigma, left) == Trace(marketPrice, price, vega, InitialGuess, MaxIterations)
  }

  /** Before the first pricer call, the whole solve lies ahead. */
  lemma Started(marketPrice: real, price: real -> Result<real>, vega: real -> Result<real>)
    ensures Reached(marketPrice, price, vega, [], InitialGuess, MaxIterations)
  {
    assert [] + Trace(marketPrice, price, vega, InitialGuess, MaxIterations) == Trace(marketPrice, price, vega, InitialGuess, MaxIterations);
  }

  /** An iteration that stops ends the solve with its result, after one more pricer call. */
  lemma Stopped(marketPrice: real, price: real -> Result<real>, vega: real -> Result<real>, done: seq<real>, sigma: real, fuel: nat, r: Result<real>)
    requires fuel > 0 && NewtonStep(marketPrice, price, vega, sigma) == Stop(r)
    requires Reached(marketPrice, price, vega, done, sigma, fuel)
    ensures Newton(marketPrice, price, vega, sigma, fuel) == r
    ensures r == Newton(marketPrice, price, vega, InitialGuess, MaxIterations)
    ensures done + [sigma] == Trace(marketPrice, price, vega, InitialGuess, MaxIterations)
  {
  }

  /** An iteration that goes on leaves the rest of the solve to the next volatility, after one more pricer call. */
  lemma Continued(marketPrice: real, price: real -> Result<real>, vega: real -> Result<real>, done: seq<real>, sigma: real, fuel: nat, next: real)
    requires fuel > 0 && NewtonStep(marketPrice, price, vega, sigma) == Continue(next)
    requires Reached(marketPrice, price, vega, done, sigma, fuel)
    ensures Newton(marketPrice, price, vega, sigma, fuel) == Newton(marketPrice, price, vega, next, fuel - 1)
    ensures Reached(marketPrice, price, vega, done + [sigma], next, fuel - 1)
  {
    var rest := Trace(marketPrice, price, vega, next, fuel - 1);
    assert Trace(marketPrice, price, vega, sigma, fuel) == [sigma] + rest;
    AppendAssoc(done, [sigma], rest);
  }

  lemma AppendAssoc(a: seq<real>, b: seq<real>, c: seq<real>)
    ensures (a + b) + c == a + (b + c)
  {
  }

  /** With no iterations left, the solve returns the current volatility and the calls made are the whole trace. */
  lemma Finished(marketPrice: real, price: real -> Result<real>, vega: real -> Result<real>, done: seq<real>, sigma: real)
    requires Reached(marketPrice, price, vega, done, sigma, 0)
    ensures Newton(marketPrice, price, vega, InitialGuess, MaxIterations) == Ok(sigma)
    ensures done == Trace(marketPrice, price, vega, InitialGuess, MaxIterations)
  {
    assert done + [] == done;
  }

  /** The Black-Scholes price of the quote, as a function of the volatility. */
  function PricerAt(m: Libm, spot: real, strike: real, expiry: real, rate: real, side: Side): real -> Result<real>
  {
    s => BlackScholesPrice(m, spot, strike, expiry, rate, s, side)
  }

  /** The vega of the quote, as a function of the volatility. */
  function VegaAt(m: Libm, spot: real, strike: real, expiry: real, rate: real): real -> Result<real>
  {
    s => Vega(m, spot, strike, expiry, rate, s)
  }

  /** The implied volatility of a quote: the solve from 0.5 with at most 100 iterations. */
  function ImpliedVolatilitySpec(m: Libm, marketPrice: real, spot: real, strike: real, expiry: real, rate: real, side: Side): Result<real>
  {
    Newton(marketPrice, PricerAt(m, spot, strike, expiry, rate, side), VegaAt(m, spot, strike, expiry, rate), InitialGuess, MaxIterations)
  }

  /**
   * The solver loop, for a given pricer and vega. Returns the volatility, or
   * the fault the pricer or vega raised; `calls` records the volatility of
   * every pricer call, in order, which is what `Trace` lists.
   */
  method NewtonSolve(marketPrice: real, price: real -> Result<real>, vega: real -> Result<real>)
    returns (iv: Result<real>, ghost calls: seq<real>)
    ensures iv == Newton(marketPrice, price, vega, InitialGuess, MaxIterations)
    ensures iv.Ok? ==> 0.0 < iv.value <= Cap
    ensures calls == Trace(marketPrice, price, vega, InitialGuess, MaxIterations)
    ensures 0 < |calls| <= MaxIterations
  {
    NewtonInRange(marketPrice, price, vega, InitialGuess, MaxIterations);
    var sigma := InitialGuess;
    calls := [];
    Started(marketPrice, price, vega);
    for i := 0 to MaxIterations
      invariant 0.0 < sigma <= Cap
      invariant Reached(marketPrice, price, vega, calls, sigma, MaxIterations - i)
    {
      ghost var fuel, done := MaxIterations - i, calls;
      var p := price(sigma);
      calls := calls + [sigma];
      if p.Err? {
        iv := Err(p.fault);
        Stopped(marketPrice, price, vega, done, sigma, fuel, iv);
        return;
      }
      var diff := marketPrice - p.value;
      if Abs(diff) < Tolerance {
        iv := Ok(sigma);
        Stopped(marketPrice, price, vega, done, sigma, fuel, iv);
        return;
      }
      var v := vega(sigma);
      if v.Err? {
        iv := Err(v.fault);
        Stopped(marketPrice, price, vega, done, sigma, fuel, iv);
        return;
      }
      if v.value == 0.0 {
        iv := Ok(sigma);
        Stopped(marketPrice, price, vega, done, sigma, fuel, iv);
        return;
      }
      ghost var previous := sigma;
      assert NewtonStep(marketPrice, price, vega, previous) == Continue(Clamp(previous + diff / v.value));
      sigma := sigma + diff / v.value;
      if sigma <= 0.0 {
        sigma := Floor;
      }
      if sigma > Cap {
        sigma := Cap;
      }
      assert sigma == Clamp(previous + diff / v.value);
      Continued(marketPrice, price, vega, done, previous, fuel, sigma);
    }
    Finished(marketPrice, price, vega, calls, sigma);
    iv := Ok(sigma);
  }

  /** The implied volatility of a quote: the solver run on its Black-Scholes price and vega. */
  method ImpliedVolatility(m: Libm, marketPrice: real, spot: real, strike: real, expiry: real, rate: real, side: Side)
    returns (iv: Result<real>)
    ensures iv == ImpliedVolatilitySpec(m, marketPrice, spot, strike, expiry, rate, side)
    ensures iv.Ok? ==> 0.0 < iv.value <= Cap
  {
    ghost var calls;
    iv, calls := NewtonSolve(marketPrice, PricerAt(m, spot, strike, expiry, rate, side), VegaAt(m, spot, strike, expiry, rate));
  }

  /**
   * When the solve raises: with a positive expiry, exactly when the closed
   * form's domain is violated (zero strike or S/K not positive); with an
   * expired quote, exactly when the intrinsic value misses the market price,
   * since vega then raises. An expired quote that matches returns 0.5.
   */
  lemma ImpliedVolatilityFaults(m: Libm, marketPrice: real, spot: real, strike: real, expiry: real, rate: real, side: Side)
    ensures ImpliedVolatilitySpec(m, marketPrice, spot, strike, expiry, rate, side).Err? <==>
      if expiry > 0.0 then !(strike != 0.0 && spot / strike > 0.0)
      else Abs(marketPrice - Intrinsic(spot, strike, side)) >= Tolerance
    ensures expiry <= 0.0 && Abs(marketPrice - Intrinsic(spot, strike, side)) < Tolerance ==>
      ImpliedVolatilitySpec(m, marketPrice, spot, strike, expiry, rate, side) == Ok(InitialGuess)
  {
    var P, V := PricerAt(m, spot, strike, expiry, rate, side), VegaAt(m, spot, strike, expiry, rate);
    if expiry > 0.0 && strike != 0.0 && spot / strike > 0.0 {
      forall s | 0.0 < s <= Cap
        ensures P(s).Ok? && V(s).Ok?
      {
      }
      NewtonFaultFree(marketPrice, P, V, InitialGuess, MaxIterations);
    }
  }
}
