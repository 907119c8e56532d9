/** Shared vocabulary of the three root-finding solvers: the iteration record,
    the trace of records, the outcome a solver call hands back, and the loop
    that the Newton and fixed-point solvers have in common. */
module Trace {

  datatype Option<+T> = None | Some(value: T)

  /** One iteration record. `fPn` is the function value at `Pn`; the
      fixed-point solver has no residual and records `None` (the source's
      not-a-number sentinel). */
  datatype Rec = Rec(iter: int, Pn: real, fPn: Option<real>, error: real)

  /** The two named failures a solver raises. */
  datatype SolverError = InvalidBracket | ZeroDerivative

  /** What a solver call returns: an approximation with its trace, or a
      named failure (in which case no trace is returned). */
  datatype Outcome = Success(approx: real, trace: seq<Rec>) | Failure(error: SolverError)

  /** What one pass of a successive-approximation loop does: it computes the
      new approximation Pn with the record's other two fields, or it raises. */
  datatype PassResult = Made(Pn: real, fPn: Option<real>, error: real) | Raised(raised: SolverError)

  /** Record r is what `made` produced. */
  predicate Produced(made: PassResult, r: Rec)
  {
    made == Made(r.Pn, r.fPn, r.error)
  }

  function Abs(x: real): (r: real)
    ensures r >= 0.0 && (r == x || r == -x)
  {
    if x < 0.0 then -x else x
  }

  /** The number of passes a loop `for n in range(first, last + 1)` makes. */
  function PassCount(first: int, last: int): nat
  {
    if first <= last then last - first + 1 else 0
  }

  /** The records of `t` carry the contiguous indices first, first+1, ... */
  predicate Indexed(t: seq<Rec>, first: int)
  {
    forall i :: 0 <= i < |t| ==> t[i].iter == first + i
  }

  /** The approximation pass i of a trace starts from: the initial guess
      for the first record, the previous record's Pn for every later one. */
  function Start(p0: real, t: seq<Rec>, i: int): real
    requires 0 <= i <= |t|
  {
    if i == 0 then p0 else t[i - 1].Pn
  }

  /** The approximation after the whole trace: the last Pn, or p0 when
      no pass was made. */
  function Last(p0: real, t: seq<Rec>): real
  {
    Start(p0, t, |t|)
  }

  /** Puts the records `log` of earlier passes in front of the outcome of
      the remaining passes; a failure discards them. */
  function Prepend(log: seq<Rec>, o: Outcome): Outcome
  {
    match o
    case Success(x, t) => Success(x, log + t)
    case Failure(e) => Failure(e)
  }

  lemma PrependPrepend(log: seq<Rec>, more: seq<Rec>, o: Outcome)
    ensures Prepend(log, Prepend(more, o)) == Prepend(log + more, o)
  {
    if o.Success? {
      assert log + (more + o.trace) == (log + more) + o.trace;
    }
  }

  /** Passes n..maxIter of the loop shared by the Newton and fixed-point
      solvers, the first starting from prev: pass(s) is what a pass does
      when it starts from s. A raising pass ends the call with its error; a
      record within tolerance ends it with that record's Pn; after pass
      maxIter the last approximation is returned. */
  function Loop(pass: real -> PassResult, prev: real, tol: real, n: int, maxIter: int): Outcome
    decreases maxIter - n
  {
    if n > maxIter then Success(prev, [])
    else
      match pass(prev)
      case Raised(e) => Failure(e)
      case Made(p, fp, err) =>
        var rec := Rec(n, p, fp, err);
        if err < tol then Success(p, [rec])
        else Prepend([rec], Loop(pass, p, tol, n + 1, maxIter))
  }

  /** Every record of t is what a pass makes from the approximation before it. */
  predicate Chain(pass: real -> PassResult, p0: real, t: seq<Rec>)
  {
    forall i {:trigger Start(p0, t, i)} :: 0 <= i < |t| ==> Produced(pass(Start(p0, t, i)), t[i])
  }

  /** Declarative description of a successful run of passes n..maxIter
      from p0: contiguous indices, one pass per record, no more records
      than passes, only the last record may be within tolerance, the run
      stops before pass maxIter only on tolerance, and it returns the last
      approximation (p0 when no pass was made). */
  predicate IsRun(pass: real -> PassResult, p0: real, tol: real, n: int, maxIter: int, x: real, t: seq<Rec>)
  {
    && Indexed(t, n)
    && Chain(pass, p0, t)
    && |t| <= PassCount(n, maxIter)
    && (forall i :: 0 <= i < |t| - 1 ==> t[i].error >= tol)
    && (|t| < PassCount(n, maxIter) ==> |t| > 0 && t[|t| - 1].error < tol)
    && x == Last(p0, t)
  }

  /** Declarative description of a run that raises e: the passes t were
      made, none of them within tolerance, a further pass is allowed, and
      it raises e where it would start. */
  predicate IsBreakdown(pass: real -> PassResult, p0: real, tol: real, n: int, maxIter: int, t: seq<Rec>, e: SolverError)
  {
    && Indexed(t, n)
    && Chain(pass, p0, t)
    && |t| < PassCount(n, maxIter)
    && (forall i :: 0 <= i < |t| ==> t[i].error >= tol)
    && pass(Last(p0, t)) == Raised(e)
  }

  /** One pass that makes a record: the record joins the log, then either
      the loop returns or the next pass continues from the record's Pn. */
  lemma PassExtends(pass: real -> PassResult, prev: real, tol: real, n: int, maxIter: int, log: seq<Rec>, rec: Rec)
    requires n <= maxIter && rec.iter == n && Produced(pass(prev), rec)
    ensures Prepend(log, Loop(pass, prev, tol, n, maxIter)) ==
      if rec.error < tol then Success(rec.Pn, log + [rec])
      else Prepend(log + [rec], Loop(pass, rec.Pn, tol, n + 1, maxIter))
  {
    PrependPrepend(log, [rec], Loop(pass, rec.Pn, tol, n + 1, maxIter));
  }

  lemma ChainCons(pass: real -> PassResult, prev: real, rec: Rec, t: seq<Rec>)
    requires Produced(pass(prev), rec) && Chain(pass, rec.Pn, t)
    ensures Chain(pass, prev, [rec] + t) && Last(prev, [rec] + t) == Last(rec.Pn, t)
  {
    var u := [rec] + t;
    forall i | 0 <= i < |u| ensures Produced(pass(Start(prev, u, i)), u[i]) {
      if i > 0 {
        assert Start(prev, u, i) == Start(rec.Pn, t, i - 1);
        assert u[i] == t[i - 1];
      }
    }
  }

  lemma ChainUncons(pass: real -> PassResult, prev: real, t: seq<Rec>)
    requires |t| > 0 && Chain(pass, prev, t)
    ensures Produced(pass(prev), t[0]) && Chain(pass, t[0].Pn, t[1..])
    ensures Last(prev, t) == Last(t[0].Pn, t[1..])
  {
    assert Produced(pass(Start(prev, t, 0)), t[0]);
    var rest := t[1..];
    forall i | 0 <= i < |rest| ensures Produced(pass(Start(t[0].Pn, rest, i)), rest[i]) {
      assert Start(t[0].Pn, rest, i) == Start(prev, t, i + 1);
      assert Produced(pass(Start(prev, t, i + 1)), t[i + 1]);
    }
  }

  lemma IndexedCons(rec: Rec, t: seq<Rec>, n: int)
    requires rec.iter == n && Indexed(t, n + 1)
    ensures Indexed([rec] + t, n)
  {
  }

  lemma {:induction false} LoopIsRun(pass: real -> PassResult, prev: real, tol: real, n: int, maxIter: int)
    ensures var o := Loop(pass, prev, tol, n, maxIter);
      o.Success? ==> IsRun(pass, prev, tol, n, maxIter, o.approx, o.trace)
    decreases maxIter - n
  {
    if n <= maxIter && pass(prev).Made? {
      var made := pass(prev);
      var rec := Rec(n, made.Pn, made.fPn, made.error);
      if rec.error < tol {
        ChainCons(pass, prev, rec, []);
      } else {
        LoopIsRun(pass, rec.Pn, tol, n + 1, maxIter);
        var sub := Loop(pass, rec.Pn, tol, n + 1, maxIter);
        if sub.Success? {
          ChainCons(pass, prev, rec, sub.trace);
          IndexedCons(rec, sub.trace, n);
          assert IsRun(pass, prev, tol, n, maxIter, sub.approx, [rec] + sub.trace);
        }
      }
    }
  }

  /** A run whose first record is outside tolerance is that record
      followed by a run of the remaining passes. */
  lemma RunUncons(pass: real -> PassResult, prev: real, tol: real, n: int, maxIter: int, x: real, t: seq<Rec>)
    requires IsRun(pass, prev, tol, n, maxIter, x, t) && |t| > 0 && t[0].error >= tol
    ensures n <= maxIter && t[0].iter == n && Produced(pass(prev), t[0])
    ensures IsRun(pass, t[0].Pn, tol, n + 1, maxIter, x, t[1..])
  {
    ChainUncons(pass, prev, t);
    var rest := t[1..];
    forall i | 0 <= i < |rest| - 1 ensures rest[i].error >= tol {
      assert rest[i] == t[i + 1];
    }
  }

  /** A run whose first record is within tolerance is that record alone. */
  lemma RunSingle(pass: real -> PassResult, prev: real, tol: real, n: int, maxIter: int, x: real, t: seq<Rec>)
    requires IsRun(pass, prev, tol, n, maxIter, x, t) && |t| > 0 && t[0].error < tol
    ensures n <= maxIter && t[0].iter == n && Produced(pass(prev), t[0])
    ensures t == [t[0]] && x == t[0].Pn
  {
    assert Produced(pass(Start(prev, t, 0)), t[0]);
  }

  lemma {:induction false} RunIsLoop(pass: real -> PassResult, prev: real, tol: real, n: int, maxIter: int, x: real, t: seq<Rec>)
    requires IsRun(pass, prev, tol, n, maxIter, x, t)
    ensures Loop(pass, prev, tol, n, maxIter) == Success(x, t)
    decreases |t|
  {
    if |t| == 0 {
    } else if t[0].error < tol {
      RunSingle(pass, prev, tol, n, maxIter, x, t);
      PassExtends(pass, prev, tol, n, maxIter, [], t[0]);
    } else {
      RunUncons(pass, prev, tol, n, maxIter, x, t);
      RunIsLoop(pass, t[0].Pn, tol, n + 1, maxIter, x, t[1..]);
      PassExtends(pass, prev, tol, n, maxIter, [], t[0]);
      assert [t[0]] + t[1..] == t;
    }
  }

  lemma {:induction false} LoopBreaksDown(pass: real -> PassResult, prev: real, tol: real, n: int, maxIter: int)
    ensures var o := Loop(pass, prev, tol, n, maxIter);
      o.Failure? ==> exists t :: IsBreakdown(pass, prev, tol, n, maxIter, t, o.error)
    decreases maxIter - n
  {
    var o := Loop(pass, prev, tol, n, maxIter);
    if n <= maxIter && o.Failure? {
      var made := pass(prev);
      if made.Raised? {
        assert IsBreakdown(pass, prev, tol, n, maxIter, [], o.error);
      } else {
        var rec := Rec(n, made.Pn, made.fPn, made.error);
        LoopBreaksDown(pass, rec.Pn, tol, n + 1, maxIter);
        var u :| IsBreakdown(pass, rec.Pn, tol, n + 1, maxIter, u, o.error);
        ChainCons(pass, prev, rec, u);
        IndexedCons(rec, u, n);
        assert IsBreakdown(pass, prev, tol, n, maxIter, [rec] + u, o.error);
      }
    }
  }

  lemma {:induction false} BreakdownIsLoop(pass: real -> PassResult, prev: real, tol: real, n: int, maxIter: int, t: seq<Rec>, e: SolverError)
    requires IsBreakdown(pass, prev, tol, n, maxIter, t, e)
    ensures Loop(pass, prev, tol, n, maxIter) == Failure(e)
    decreases |t|
  {
    if |t| > 0 {
      ChainUncons(pass, prev, t);
      BreakdownIsLoop(pass, t[0].Pn, tol, n + 1, maxIter, t[1..], e);
    }
  }

  /** The loop returns (x, t) exactly when (x, t) is a run as described by
      IsRun; in particular that run is unique. */
  lemma LoopRunIff(pass: real -> PassResult, p0: real, tol: real, n: int, maxIter: int, x: real, t: seq<Rec>)
    ensures Loop(pass, p0, tol, n, maxIter) == Success(x, t) <==> IsRun(pass, p0, tol, n, maxIter, x, t)
  {
    LoopIsRun(pass, p0, tol, n, maxIter);
    if IsRun(pass, p0, tol, n, maxIter, x, t) {
      RunIsLoop(pass, p0, tol, n, maxIter, x, t);
    }
  }

  /** The loop raises e exactly when a pass it reaches raises e. */
  lemma LoopFailureIff(pass: real -> PassResult, p0: real, tol: real, n: int, maxIter: int, e: SolverError)
    ensures Loop(pass, p0, tol, n, maxIter) == Failure(e) <==> exists t :: IsBreakdown(pass, p0, tol, n, maxIter, t, e)
  {
    LoopBreaksDown(pass, p0, tol, n, maxIter);
    if t :| IsBreakdown(pass, p0, tol, n, maxIter, t, e) {
      BreakdownIsLoop(pass, p0, tol, n, maxIter, t, e);
    }
  }
}
