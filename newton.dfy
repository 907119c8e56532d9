/** Newton-Raphson with an iteration trace: each pass replaces the previous
    approximation s by s - f(s)/df(s), and the call fails as soon as the
    derivative vanishes at the point a pass starts from. */
module Newton {
  import opened Trace
  import Derivative

  const DefaultTol: real := 0.00001
  const DefaultMaxIter: int := 20

  /** One Newton step from s; defined only where df(s) is not zero. */
  function Step(f: real -> real, df: real -> real, s: real): real
    requires df(s) != 0.0
  {
    s - f(s) / df(s)
  }

  /** The record fields of the Newton step from s: the new
      approximation, f there, and the distance moved. */
  function StepMade(f: real -> real, df: real -> real, s: real): PassResult
    requires df(s) != 0.0
  {
    var p := Step(f, df, s);
    Made(p, Some(f(p)), Abs(p - s))
  }

  /** What one pass does from s: raise on a zero derivative, otherwise
      take the Newton step. */
  function Pass(f: real -> real, df: real -> real): real -> PassResult
  {
    s => if df(s) == 0.0 then Raised(ZeroDerivative) else StepMade(f, df, s)
  }

  /** The result of a Newton call: passes 1..maxIter from the initial guess. */
  function Solve(f: real -> real, df: real -> real, p0: real, tol: real, maxIter: int): Outcome
  {
    Loop(Pass(f, df), p0, tol, 1, maxIter)
  }

  /** Record r is one Newton pass that starts from s: the derivative at s
      is not zero, Pn is the Newton step from s, fPn is f at Pn and the
      error is the distance moved. */
  predicate IsStep(f: real -> real, df: real -> real, s: real, r: Rec)
  {
    && df(s) != 0.0
    && r.Pn == Step(f, df, s)
    && r.fPn == Some(f(r.Pn))
    && r.error == Abs(r.Pn - s)
  }

  /** Declarative description of a successful Newton call: the trace has
      the indices 1..k with k <= maxIter, every record is a Newton step
      from the one before (from p0 for the first), only the last record may
      be within tolerance, the trace is shorter than maxIter only when its
      last record is within tolerance, and the result is the last Pn (p0
      when the trace is empty). */
  predicate IsNewtonRun(f: real -> real, df: real -> real, p0: real, tol: real, maxIter: int, x: real, t: seq<Rec>)
  {
    && Indexed(t, 1)
    && (forall i {:trigger Start(p0, t, i)} :: 0 <= i < |t| ==> IsStep(f, df, Start(p0, t, i), t[i]))
    && |t| <= PassCount(1, maxIter)
    && (forall i :: 0 <= i < |t| - 1 ==> t[i].error >= tol)
    && (|t| < PassCount(1, maxIter) ==> |t| > 0 && t[|t| - 1].error < tol)
    && x == Last(p0, t)
  }

  /** The loop of the source, with the exception turned into a Failure. */
  method NewtonWithLog(f: real -> real, df: real -> real, p0: real, tol: real, maxIter: int) returns (r: Outcome)
    ensures r == Solve(f, df, p0, tol, maxIter)
  {
    ghost var whole := Solve(f, df, p0, tol, maxIter);
    var log: seq<Rec> := [];
    var prev := p0;
    var n := 1;
    while n <= maxIter
      invariant whole == Prepend(log, Loop(Pass(f, df), prev, tol, n, maxIter))
    {
      var fv := f(prev);
      var dv := df(prev);
      if dv == 0.0 {
        return Failure(ZeroDerivative);
      }
      var p := prev - fv / dv;
      var err := Abs(p - prev);
      var rec := Rec(n, p, Some(f(p)), err);
      assert p == Step(f, df, prev);
      PassExtends(Pass(f, df), prev, tol, n, maxIter, log, rec);
      log := log + [rec];
      if err < tol {
        return Success(p, log);
      }
      prev := p;
      n := n + 1;
    }
    return Success(prev, log);
  }

  /** A record made by a pass from s is exactly a Newton step from s. */
  lemma PassIsStep(f: real -> real, df: real -> real, s: real, r: Rec)
    ensures Produced(Pass(f, df)(s), r) <==> IsStep(f, df, s, r)
  {
  }

  lemma ChainIsSteps(f: real -> real, df: real -> real, p0: real, t: seq<Rec>)
    ensures Chain(Pass(f, df), p0, t) <==> forall i {:trigger Start(p0, t, i)} :: 0 <= i < |t| ==> IsStep(f, df, Start(p0, t, i), t[i])
  {
    forall i | 0 <= i < |t| {
      PassIsStep(f, df, Start(p0, t, i), t[i]);
    }
  }

  /** A Newton call returns (x, t) exactly when (x, t) is the run the
      declarative description allows; in particular that run is unique. */
  lemma NewtonRunIff(f: real -> real, df: real -> real, p0: real, tol: real, maxIter: int, x: real, t: seq<Rec>)
    ensures Solve(f, df, p0, tol, maxIter) == Success(x, t) <==> IsNewtonRun(f, df, p0, tol, maxIter, x, t)
  {
    LoopRunIff(Pass(f, df), p0, tol, 1, maxIter, x, t);
    ChainIsSteps(f, df, p0, t);
  }

  /** A Newton call fails exactly when, after passes that are all Newton
      steps outside tolerance, the derivative vanishes where the next
      allowed pass would start; the failure is always the zero-derivative
      error. */
  lemma NewtonFailureIff(f: real -> real, df: real -> real, p0: real, tol: real, maxIter: int)
    ensures Solve(f, df, p0, tol, maxIter).Failure? <==>
      exists t :: IsBreakdown(Pass(f, df), p0, tol, 1, maxIter, t, ZeroDerivative)
    ensures Solve(f, df, p0, tol, maxIter).Failure? ==> Solve(f, df, p0, tol, maxIter).error == ZeroDerivative
  {
    var o := Solve(f, df, p0, tol, maxIter);
    LoopFailureIff(Pass(f, df), p0, tol, 1, maxIter, ZeroDerivative);
    if o.Failure? {
      LoopFailureIff(Pass(f, df), p0, tol, 1, maxIter, o.error);
      var t :| IsBreakdown(Pass(f, df), p0, tol, 1, maxIter, t, o.error);
      OnlyZeroDerivative(f, df, Last(p0, t));
    }
  }

  /** A Newton pass raises only the zero-derivative error, and only where
      the derivative is zero. */
  lemma OnlyZeroDerivative(f: real -> real, df: real -> real, s: real)
    ensures Pass(f, df)(s).Raised? <==> df(s) == 0.0
    ensures Pass(f, df)(s).Raised? ==> Pass(f, df)(s).raised == ZeroDerivative
  {
  }

  /** What a breakdown means in Newton's terms: every pass before it was
      a Newton step and the derivative is zero where it happens. */
  lemma BreakdownIsFlat(f: real -> real, df: real -> real, p0: real, tol: real, maxIter: int, t: seq<Rec>, e: SolverError)
    requires IsBreakdown(Pass(f, df), p0, tol, 1, maxIter, t, e)
    ensures e == ZeroDerivative && df(Last(p0, t)) == 0.0
    ensures forall i {:trigger Start(p0, t, i)} :: 0 <= i < |t| ==> IsStep(f, df, Start(p0, t, i), t[i])
  {
    ChainIsSteps(f, df, p0, t);
  }

  /** With the central-difference derivative as df, Newton breaks down at
      the first pass whenever f takes equal values at p0 - h and p0 + h. */
  lemma NumericFallbackBreaksDown(f: real -> real, h: real, p0: real, tol: real, maxIter: int)
    requires h != 0.0 && maxIter >= 1
    requires f(p0 + h) == f(p0 - h)
    ensures Solve(f, Derivative.NumericDerivative(f, h), p0, tol, maxIter) == Failure(ZeroDerivative)
  {
    Derivative.FlatGivesZero(f, h, p0);
  }
}
