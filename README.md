# Root-finding solvers with iteration traces

A Dafny model of the numeric core of a small root-finding application. It has three
solvers and one helper:

- **bisection** works on a bracket `[a, b]` across which `f` changes sign.
- **Newton-Raphson** takes a derivative `df`.
- **fixed-point iteration** works on `x = g(x)`.
- **the central-difference derivative** is the helper Newton falls back on when no
  analytic derivative is given.

Each solver returns its final approximation together with a trace: one record
`{iter, Pn, fPn, error}` per pass.

The model works over Dafny's `real`. User functions are total `real -> real` values. A
call's result is an `Outcome`:

- `Success(approx, trace)`, or
- `Failure(InvalidBracket)` / `Failure(ZeroDerivative)`, which stand for the two
  `ValueError`s the source raises.

The fixed-point solver's "no residual" sentinel (a not-a-number in the source) is
`None` in `Rec.fPn`.

Modules, one per file:

- `Trace` (trace.dfy) holds the record, the outcome and `Loop`. `Loop` is the
  successive-approximation loop that the Newton and fixed-point solvers share. It takes
  a *pass* function that either makes the next approximation with its record fields or
  raises. The module also holds a declarative description of the loop's results
  (`IsRun`, `IsBreakdown`), with the lemmas proving that description exact in both
  directions.
- `Newton` (newton.dfy), `FixedPoint` (fixed_point.dfy) and `Bisection`
  (bisection.dfy) each have:
  - a specification function `Solve`;
  - the source's loop as a method (`NewtonWithLog`, `FixedPointWithLog`,
    `BisectionWithLog`) whose postcondition is `r == Solve(...)`;
  - lemmas stating what `Solve` promises.
- `Derivative` (derivative.dfy) holds `NumericDerivative` and its properties.

## Model

| member | source | states |
|---|---|---|
| Trace.Abs | core/newton.py:25 | the error of a pass is non-negative and is the distance between the two approximations |
| Trace.PassExtends | core/newton.py:26-29 | one pass that makes a record appends it to the log; the loop then returns that record's Pn if its error is below tol, otherwise the next pass starts from that Pn |
| Trace.LoopIsRun | core/newton.py:17-30 | every successful result of the shared loop satisfies the run description: indices n, n+1, ...; each record made by a pass from the previous Pn (from the start point for the first); at most maxIter-n+1 records; only the last record within tolerance; a short trace only when its last record is within tolerance; the result is the last Pn, or the start point when there are no records |
| Trace.RunIsLoop | core/newton.py:17-30 | conversely, any (x, t) satisfying the run description is what the loop returns |
| Trace.LoopRunIff | core/newton.py:17-30 | the loop returns (x, t) if and only if (x, t) satisfies the run description; so the trace is unique |
| Trace.LoopBreaksDown | core/newton.py:19-23 | a failure of the loop with error e comes from a pass that raises e; before it come passes that are all outside tolerance, and a further pass is still allowed |
| Trace.BreakdownIsLoop | core/newton.py:19-23 | conversely, such a breakdown makes the loop fail with e |
| Trace.LoopFailureIff | core/newton.py:19-23 | the loop fails with e if and only if a breakdown with e exists |
| Newton.NewtonWithLog | core/newton.py:4-30 | the loop as written returns exactly Solve: the same failure, or the same approximation and trace |
| Newton.PassIsStep | core/newton.py:20-26 | a record made by a Newton pass from s is exactly the Newton step from s: df(s) != 0, Pn = s - f(s)/df(s), fPn = f(Pn), error = abs(Pn - s) |
| Newton.ChainIsSteps | core/newton.py:18-29 | the records of a trace are passes chained from P0 if and only if each record is a Newton step from the previous Pn (from P0 for the first) |
| Newton.OnlyZeroDerivative | core/newton.py:22-23 | a Newton pass raises exactly where the derivative is zero, and the error it raises is ZeroDerivative |
| Newton.NewtonRunIff | core/newton.py:17-30 | a Newton call returns (x, t) if and only if: the indices are 1..k with k <= maxIter; each record is a Newton step from the one before; only the last record is within tolerance; fewer than maxIter records only when the last is within tolerance; x is the last Pn (P0 with an empty trace when maxIter <= 0) |
| Newton.NewtonFailureIff | core/newton.py:19-23 | a Newton call fails if and only if a pass it reaches raises (passes before it being outside tolerance); the error is always ZeroDerivative |
| Newton.BreakdownIsFlat | core/newton.py:20-24 | at a breakdown, every earlier record is a Newton step and df is zero at the last approximation |
| Newton.NumericFallbackBreaksDown | core/newton.py:22-23 | when the central-difference derivative is Newton's df and f(P0+h) = f(P0-h), the call fails at the first pass with ZeroDerivative |
| FixedPoint.FixedPointWithLog | core/fixed_point.py:3-23 | the loop as written returns exactly Solve |
| FixedPoint.ChainIsSubstitutions | core/fixed_point.py:15-22 | the records are chained passes if and only if each has Pn = g(previous Pn), where the previous Pn is P0 for record 1; fPn = None; error = abs(Pn - previous Pn) |
| FixedPoint.FixedPointRunIff | core/fixed_point.py:14-23 | a fixed-point call returns (x, t) if and only if: the indices are 1..k with k <= maxIter; every record is a substitution step from the one before; only the last record is within tolerance; the trace is short only when the last record is within tolerance; x is the last Pn (P0 with an empty trace when maxIter <= 0) |
| FixedPoint.FixedPointNeverFails | core/fixed_point.py:16-23 | a fixed-point call never fails |
| FixedPoint.StartsAtFixedPoint | core/fixed_point.py:17-21 | started at a fixed point of g with tol > 0, the call stops after one record with error 0 and returns P0 |
| Derivative.NumericDerivative | core/derivative.py:3-7 | for every x, the returned df satisfies df(x) * 2h = f(x+h) - f(x-h), with h != 0 |
| Derivative.FlatGivesZero | core/derivative.py:6 | df(x) = 0 if and only if f(x+h) = f(x-h) |
| Derivative.OnlySamplesMatter | core/derivative.py:5-6 | df(x) depends on f only through f(x+h) and f(x-h) |
| Derivative.StepSignIrrelevant | core/derivative.py:6 | the steps h and -h give the same estimate |
| Derivative.ExactOnQuadratics | core/derivative.py:6 | on c2*x^2 + c1*x + c0 the estimate equals the exact derivative 2*c2*x + c1, for every h != 0 |
| Bisection.SignTests | core/bisection.py:33 | the sign tests the model uses are exactly the source's products: Opposite(x, y) iff x*y < 0 (line 33), and Alike(x, y) iff x*y > 0 (line 21) |
| Bisection.SignChangeKept | core/bisection.py:33-36 | if f changes sign across [a, b] and is not zero at p, then when f does not change sign across [a, p] it changes sign across [p, b] |
| Bisection.KeepLeft | core/bisection.py:33-34 | keeping [a, p] preserves the loop invariant: a <= b, fa = f(a), fb = f(b), and a sign change |
| Bisection.KeepRight | core/bisection.py:35-36 | keeping [p, b] preserves the same invariant when f(p) != 0 |
| Bisection.Halve | core/bisection.py:24-37 | the halving loop never fails |
| Bisection.HalveStops | core/bisection.py:29-31 | a pass whose record meets the exit rule appends that record and returns the midpoint |
| Bisection.HalveContinues | core/bisection.py:29-36 | any other pass appends its record, and the loop continues on the half with the sign change |
| Bisection.BisectionWithLog | core/bisection.py:3-37 | the function as written returns exactly Solve; its loop keeps a <= b, fa = f(a), fb = f(b) and a sign change across [a, b] |
| Bisection.HalveIsRun | core/bisection.py:24-37 | every result of the halving loop on [a, b] satisfies the run description: indices n.. and at most maxIter-n+1 records; record 1 is taken on [a, b] and every later record on the half its predecessor kept; fPn = f(Pn); only the last record meets the exit rule; a short trace only when it does; the result is given by Final |
| Bisection.RunIsHalve | core/bisection.py:24-37 | conversely, anything satisfying the run description is what the halving loop returns |
| Bisection.BisectionRunIff | core/bisection.py:14-37 | with no endpoint root, a call returns (x, t) if and only if f changes sign across the ordered bracket and (x, t) satisfies the run description on it |
| Bisection.RecordBracket | core/bisection.py:26-36 | record i of a run on [a, b] with a sign change has error (b-a)/2^(i+1) > 0; its bracket [Pn-error, Pn+error] lies within [a, b]; f changes sign across that bracket |
| Bisection.BisectionExits | core/bisection.py:14-22 | the endpoints are ordered. A root at the smaller endpoint gives that endpoint with the single record {0, lo, 0, 0}. Otherwise a root at the larger endpoint gives the same for it. With neither a root, the call fails (InvalidBracket, no trace) if and only if f(lo)*f(hi) > 0, and that is the only failure. Swapping a and b does not change the result |
| Bisection.ProperBracket | core/bisection.py:17-22 | a call that reaches the loop has lo < hi and a sign change across [lo, hi] |
| Bisection.BisectionRecords | core/bisection.py:25-36 | a call that reaches the loop has indices 1..k with k <= maxIter and fPn = f(Pn). Record i has error (hi-lo)/2^(i+1), Pn strictly inside (lo, hi), and a sign change across its bracket. Each error is exactly half the previous one, and each Pn is the previous Pn plus or minus the new error |
| Bisection.BisectionWithinTolerance | core/bisection.py:28-31 | if (hi-lo)/2^m < tol for some 1 <= m <= maxIter, the trace has at most m records |
| Bisection.BisectionEnds | core/bisection.py:30-37 | no record but the last meets the exit rule (err < tol or f(p) = 0). When the last one does, the result is its Pn, and a trace shorter than maxIter always ends this way. Otherwise the passes ran out: there are exactly maxIter records, and the result is the midpoint of the half kept from the last bracket. That midpoint is last Pn plus or minus error/2, strictly inside (lo, hi), and never equal to the last Pn. With maxIter <= 0 the trace is empty and the result is (lo+hi)/2 |
| Bisection.Exhausted | core/bisection.py:37 | after the last pass the returned midpoint is half an error away from the last Pn |

## Left out

- Floating point. The model computes over exact reals, so rounding, overflow and NaN
  comparisons do not arise. One consequence: a floating-point underflow of `fa*fb` or
  `fa*fp` to zero would change the source's sign tests. Over the reals, the model's
  sign tests `Opposite` and `Alike` are exactly the products (`Bisection.SignTests`).
- Convergence to a true root, and speed of convergence. These need continuity and
  analysis. The model states only the loop and trace contract.
- Exceptions raised inside the user's `f`, `g` or `df` (domain errors, overflow). User
  functions are total.
- The error message texts of the two `ValueError`s. They become the constructors
  `InvalidBracket` and `ZeroDerivative`.
- `Derivative.NumericDerivative` requires `h != 0`. The source builds the closure for
  any `h`, and only a later call of it with `h = 0` divides by zero.
- The statelessness of `numeric_derivative` has no lemma of its own. A Dafny function
  value is pure, so repeated calls at the same `x` give the same value by construction.
  The same holds for every solver call.
- Default arguments are the constants `DefaultTol`, `DefaultMaxIter` and
  `DefaultStep`. No lemma is about their values.
- The user interface in ui/app.py is not part of this model: widgets, tolerance
  parsing, fixed-point start-point clamping, advisory checks, the post-processing of
  the fixed-point `fPn` column, and CSV export.
- Expression compilation in core/functions.py is not part of this model. It is a
  wrapper over Python's `compile`/`eval`.
- Bisection's short-circuit trace holds one record with index 0, whatever maxIter is,
  including `maxIter <= 0`. The model keeps this; `Bisection.BisectionExits` states it.
