# Volatility scanner engine: a Dafny model

This project models the computational core of the volatility scanner's
`engine.py`, which has three parts:

- **The Black-Scholes pricer.**
  - `black_scholes_price` returns the intrinsic value max(0, (S − K)·flag) when the expiry or the volatility is not positive. Otherwise it returns the closed form, which uses d1, d2 and the standard normal distribution.
  - `calculate_vega` computes S·√T·φ(d1).
  - Outside the degenerate branch, both raise `ZeroDivisionError` when the strike is zero and a math domain error when S/K is not positive.
  - `calculate_vega` has no degenerate branch: it also raises a math domain error when the expiry is negative, and `ZeroDivisionError` when the expiry or the volatility is zero.
- **The implied-volatility solver** (`implied_volatility`).
  - It is a Newton-Raphson loop that starts at σ = 0.5 and runs at most 100 iterations.
  - It returns σ as soon as |market − price| < 1e-5, or as soon as vega is zero.
  - After each step it clamps σ: a value ≤ 0 becomes 0.01, and a value > 5 becomes 5.
  - If no iteration returns, it returns the last σ.
- **The arbitrage scanner** (`scan_arbitrage`).
  - It sorts the call chain by strike with the language's stable sort.
  - It reports a "Monotonicity Violation" for every adjacent pair in the sorted chain in which the later call costs more. Each report carries the strike that comes later in sorted order (at or above the compared strike), its price and the strike it was compared with.
  - Adjacent quotes with the same strike are compared too. Their order in the sorted chain is their input order, so with tied strikes the result depends on the input order (`TiedStrikesOrderMatters`).

The project has four modules:

- `Primitives` (`primitives.dfy`).
  - It models the exceptions as a `Result` of type `Ok(value) | Err(fault)`, with the faults `ZeroDivision` and `MathDomain`. The operations raise them in the host language's evaluation order.
  - The floating-point library (`erf`, `exp`, `log`, `sqrt`, `pi`) is a value `Libm` of function fields. Their types record only what the real functions satisfy.
  - It also defines the normal CDF and PDF on top of `Libm`.
- `Pricer` (`pricer.dfy`): the intrinsic value, d1, the price, vega, and put-call parity.
- `Solver` (`solver.dfy`).
  - `Newton` specifies the iteration for any pricer and vega given as functions of σ.
  - The method `NewtonSolve` is the loop itself and is proved to compute `Newton`.
  - `ImpliedVolatility` runs that loop on the Black-Scholes pricer and vega.
- `Scanner` (`scanner.dfy`).
  - `StableSort` specifies the library sort. It is proved sorted, a permutation and stable, and the only sequence with these properties (`SortedRunsDetermine`). That makes it equal to the output of any correct stable sort.
  - `ScanArbitrage` is the scan loop, proved equal to `Violations(StableSort(chain))`.

## Model

| member | source | states |
|---|---|---|
| Primitives.StandardNormalCdf | engine.py:8-9 | Φ(x) = 0.5·(1 + erf(x/√2)) always lies in [0, 1] |
| Primitives.StandardNormalPdf | engine.py:13-14 | φ(x) = e^(−x²/2)/√(2π) is strictly positive |
| Primitives.CdfReflection | engine.py:8-9 | if erf is odd, then Φ(−x) = 1 − Φ(x) |
| Primitives.Divide | engine.py:23 | division succeeds exactly when the divisor is non-zero; otherwise it raises ZeroDivision |
| Primitives.Log | engine.py:23 | log succeeds exactly on a positive argument; otherwise it raises a math domain error |
| Primitives.Sqrt | engine.py:23 | sqrt succeeds exactly on a non-negative argument, otherwise it raises a math domain error; the root is non-negative, and positive exactly when the argument is |
| Pricer.Intrinsic | engine.py:20-21 | max(0, (S−K)·flag) is non-negative; for a call it is S−K when S>K and 0 otherwise; for a put it is K−S when K>S and 0 otherwise |
| Pricer.D1 | engine.py:23 | d1 exists exactly when K≠0, S/K>0, T>0 and σ≠0; a zero strike raises ZeroDivision; a non-positive S/K raises a math domain error; otherwise a negative T raises a math domain error, and T = 0 or σ = 0 raises ZeroDivision |
| Pricer.BlackScholesPrice | engine.py:18-30 | when T≤0 or σ≤0 the price is the intrinsic value; otherwise it succeeds exactly when K≠0 and S/K>0 |
| Pricer.Vega | engine.py:34-36 | vega exists exactly when K≠0, S/K>0, T>0 and σ≠0 (there is no degenerate-case guard); when it exists it is non-zero and has the sign of S |
| Pricer.IntrinsicParity | engine.py:20-21 | at expiry, call − put = S − K |
| Pricer.PutCallParity | engine.py:23-29 | for T>0, σ>0, K≠0 and S/K>0, both prices exist and C − P = S − K·e^(−rT), provided erf is odd |
| Pricer.ClosedFormParity | engine.py:24-29 | provided erf is odd, the call and put closed forms differ by S − K·e^(−rT) at every d1 |
| Solver.Clamp | engine.py:62-64 | the result lies in (0, 5]; values in (0, 5] are kept; values ≤ 0 become 0.01; values > 5 become 5 |
| Solver.NewtonStep | engine.py:49-64 | an iteration that returns a volatility returns the current σ; one that goes on moves to a σ in (0, 5] |
| Solver.Trace | engine.py:48-49 | the pricer is called at most 100 times, and first at the initial guess |
| Solver.NewtonInRange | engine.py:60-64 | a solve started in (0, 5] returns a volatility in (0, 5], whatever the pricer and vega return |
| Solver.TraceInRange | engine.py:48-64 | every volatility the pricer is called at lies in (0, 5] |
| Solver.TraceSteps | engine.py:60-64 | consecutive pricer calls are exactly one clamped Newton step apart |
| Solver.NewtonConverged | engine.py:52-53 | a residual below 1e-5 returns the current σ |
| Solver.NewtonStalled | engine.py:57-58 | a zero vega returns the current σ |
| Solver.NewtonAdvances | engine.py:60-64 | otherwise the solve continues from Clamp(σ + diff/vega) with one iteration fewer |
| Solver.NewtonFaultFree | engine.py:48-58 | if the pricer and vega never raise on (0, 5], the solve never raises |
| Solver.NewtonSolve | engine.py:43-66 | the loop returns what `Newton` specifies from 0.5 with 100 iterations; a returned volatility lies in (0, 5]; the volatilities it calls the pricer at, recorded in order, are exactly `Trace` (between 1 and 100 of them), so `TraceInRange` and `TraceSteps` hold of the loop's own calls |
| Solver.ImpliedVolatility | engine.py:43-66 | the implied volatility of a quote is the Newton solve on its Black-Scholes price and vega, and lies in (0, 5] |
| Solver.ImpliedVolatilityFaults | engine.py:49-58 | for T>0 the solve raises exactly when K=0 or S/K≤0; for an expired quote it raises exactly when the intrinsic value misses the market price by 1e-5 or more, because vega then raises; an expired quote that matches returns 0.5 |
| Scanner.Violations | engine.py:81-92 | there is at most one anomaly per adjacent pair |
| Scanner.ViolationsExact | engine.py:81-92 | an anomaly is reported if and only if some adjacent pair has a rising price and yields exactly that anomaly |
| Scanner.ViolationsCount | engine.py:81-92 | there are exactly as many anomalies as adjacent pairs whose price goes up |
| Scanner.ViolationsEmpty | engine.py:81-92 | no anomaly is reported if and only if prices never rise along the chain |
| Scanner.ViolationStrikeBounds | engine.py:86-91 | in a strike-ordered chain, each anomaly's strike is at or above its compared strike and at most the largest strike |
| Scanner.ViolationsAscending | engine.py:79-92 | on a sorted chain, anomalies come out in ascending strike order, each at or above the strike it was compared with |
| Scanner.InsertKeyRun | engine.py:79 | inserting a quote appends it to its own strike's run and leaves every other run unchanged |
| Scanner.InsertPermutes | engine.py:79 | insertion adds exactly the inserted quote |
| Scanner.InsertSorted | engine.py:79 | insertion keeps a strike-ordered sequence ordered |
| Scanner.StableSortSorted | engine.py:79 | the sorted chain is in ascending strike order |
| Scanner.StableSortPermutes | engine.py:79 | the sorted chain is a permutation of the input |
| Scanner.StableSortKeyRun | engine.py:79 | the sort is stable: quotes with the same strike keep their relative order |
| Scanner.SortedRunsDetermine | engine.py:79 | a stable sort is unique: two strike-ordered sequences with the same per-strike runs are equal |
| Scanner.ScanOrderInvariant | engine.py:72-94 | any reordering of the chain that keeps tied strikes in order yields the same anomalies |
| Scanner.ScanPermutationInvariant | engine.py:72-94 | when no two quotes share a strike, every permutation of the chain yields the same anomalies |
| Scanner.KeyRunMultiset | engine.py:79 | a strike's run holds each quote of that strike exactly as often as the chain does, and no quote of another strike |
| Scanner.KeyRunShort | engine.py:79 | with distinct strikes every run holds at most one quote |
| Scanner.TiedStrikesOrderMatters | engine.py:79-86 | two quotes with equal strikes are flagged in one input order and not in the other |
| Scanner.ScanExamples | engine.py:72-94 | a call at 110 priced above the call at 100 is flagged once; a chain whose prices fall with strike gives nothing |
| Scanner.ScanArbitrage | engine.py:72-94 | the scan returns the violations of the stably sorted chain: at most one per adjacent pair, in ascending strike order |

## Left out

- Floating point: all arithmetic is on exact reals. IEEE rounding, overflow of `exp`, NaN and infinities are not modelled. For example, a vega that underflows to 0.0 is covered only through the generic `NewtonStalled`.
- The values of `erf`, `exp`, `log`, `sqrt` and `pi` are left abstract. The model knows only their ranges: erf lies in [−1, 1], exp is positive, and sqrt maps positives to positives.
- Pricer.PutCallParity: assumes that the library's erf is odd, as do Pricer.ClosedFormParity and Primitives.CdfReflection. The oddness is not derived from a concrete erf.
- The option flag is the two-valued `Side` (Call = +1, Put = −1). The source accepts any number and treats every flag other than 1 as a put in the closed form.
- The anomaly's `details` text ("Strike … > Strike …") is kept as the compared strike `prevStrike` instead of a formatted string. The record's keys become the fields of `Anomaly`.
- Python's `sorted` (Timsort) is specified by `StableSort`, which inserts from the back. `SortedRunsDetermine` shows that any stable sort by strike gives the same sequence. The input records are values, so the sort into a new list is the function result.
- The solver's result is not proved to reproduce the market price, and the price is not proved non-negative. Both depend on the concrete transcendental values left abstract above.
- live_feed.py, main.py and simulator.py (data feed, UI and data generation) are not part of this model.
