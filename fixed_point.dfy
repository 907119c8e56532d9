/** Fixed-point iteration with an iteration trace: each pass replaces the
    previous approximation s by g(s). There is no residual to record, so
    every record's fPn is None (the source's not-a-number sentinel). */
module FixedPoint {
  import opened Trace

  const DefaultTol: real := 0.00001
  const DefaultMaxIter: int := 50

  /** What one pass does from s: substitute, record no residual and the
      distance moved. */
  function Substitute(g: real -> real, s: real): PassResult
  {
    Made(g(s), None, Abs(g(s) - s))
  }

  /** The pass as the shared loop calls it; it never raises. */
  function Pass(g: real -> real): real -> PassResult
  {
    s => Substitute(g, s)
  }

  /** The result of a fixed-point call: passes 1..maxIter from p0. */
  function Solve(g: real -> real, p0: real, tol: real, maxIter: int): Outcome
  {
    Loop(Pass(g), p0, tol, 1, maxIter)
  }

  /** Record r is one substitution pass that starts from s. */
  predicate IsSubstitution(g: real -> real, s: real, r: Rec)
  {
    && r.Pn == g(s)
    && r.fPn == None
    && r.error == Abs(r.Pn - s)
  }

  /** Declarative description of a fixed-point call's result: indices
      1..k with k <= maxIter, record 1 substitutes p0 and every later record
      substitutes the previous Pn, only the last record may be within
      tolerance, fewer than maxIter records only when the last is within
      tolerance, and the result is the last Pn (p0 when the trace is
      empty). */
  predicate IsFixedPointRun(g: real -> real, p0: real, tol: real, maxIter: int, x: real, t: seq<Rec>)
  {
    && Indexed(t, 1)
    && (forall i {:trigger Start(p0, t, i)} :: 0 <= i < |t| ==> IsSubstitution(g, Start(p0, t, i), t[i]))
    && |t| <= PassCount(1, maxIter)
    && (forall i :: 0 <= i < |t| - 1 ==> t[i].error >= tol)
    && (|t| < PassCount(1, maxIter) ==> |t| > 0 && t[|t| - 1].error < tol)
    && x == Last(p0, t)
  }

  /** The loop of the source. */
  method FixedPointWithLog(g: real -> real, p0: real, tol: real, maxIter: int) returns (r: Outcome)
    ensures r == Solve(g, p0, tol, maxIter)
  {
    ghost var whole := Solve(g, p0, tol, maxIter);
    var log: seq<Rec> := [];
    var prev := p0;
    var n := 1;
    while n <= maxIter
      invariant whole == Prepend(log, Loop(Pass(g), prev, tol, n, maxIter))
    {
      var p := g(prev);
      var err := Abs(p - prev);
      var rec := Rec(n, p, None, err);
      PassExtends(Pass(g), prev, tol, n, maxIter, log, rec);
      log := log + [rec];
      if err < tol {
        return Success(p, log);
      }
      prev := p;
      n := n + 1;
    }
    return Success(prev, log);
  }

  lemma ChainIsSubstitutions(g: real -> real, p0: real, t: seq<Rec>)
    ensures Chain(Pass(g), p0, t) <==> forall i {:trigger Start(p0, t, i)} :: 0 <= i < |t| ==> IsSubstitution(g, Start(p0, t, i), t[i])
  {
    forall i | 0 <= i < |t|
      ensures Produced(Pass(g)(Start(p0, t, i)), t[i]) <==> IsSubstitution(g, Start(p0, t, i), t[i])
    {
    }
  }

  /** A fixed-point call returns (x, t) exactly when (x, t) is the run the
      declarative description allows; in particular that run is unique. */
  lemma FixedPointRunIff(g: real -> real, p0: real, tol: real, maxIter: int, x: real, t: seq<Rec>)
    ensures Solve(g, p0, tol, maxIter) == Success(x, t) <==> IsFixedPointRun(g, p0, tol, maxIter, x, t)
  {
    LoopRunIff(Pass(g), p0, tol, 1, maxIter, x, t);
    ChainIsSubstitutions(g, p0, t);
  }

  /** A fixed-point call never fails. */
  lemma FixedPointNeverFails(g: real -> real, p0: real, tol: real, maxIter: int)
    ensures Solve(g, p0, tol, maxIter).Success?
  {
    LoopBreaksDown(Pass(g), p0, tol, 1, maxIter);
  }

  /** Started at a fixed point of g with a positive tolerance, the call
      stops at the first pass with p0 itself and a zero error. */
  lemma StartsAtFixedPoint(g: real -> real, p0: real, tol: real, maxIter: int)
    requires g(p0) == p0 && tol > 0.0 && maxIter >= 1
    ensures Solve(g, p0, tol, maxIter) == Success(p0, [Rec(1, p0, None, 0.0)])
  {
  }
}
