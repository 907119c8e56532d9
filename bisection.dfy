/** Bisection with an iteration trace. The endpoints are put in order, an
    endpoint that is already a root short-circuits, a bracket without a
    sign change is refused, and otherwise each pass records the midpoint of
    the current bracket and keeps the half across which f changes sign. */
module Bisection {
  import opened Trace

  const DefaultTol: real := 0.000001
  const DefaultMaxIter: int := 60

  /** The endpoints after the source's swap: the smaller one ... */
  function Low(a: real, b: real): real
  {
    if a > b then b else a
  }

  /** ... and the larger one. */
  function High(a: real, b: real): real
  {
    if a > b then a else b
  }

  function Mid(a: real, b: real): real
  {
    (a + b) / 2.0
  }

  function Pow2(k: nat): (r: real)
    ensures r >= 1.0
  {
    if k == 0 then 1.0 else 2.0 * Pow2(k - 1)
  }

  /** The record of pass n on the bracket [a, b]: its midpoint, f there,
      and half the bracket's width. */
  function Probe(f: real -> real, a: real, b: real, n: int): Rec
  {
    var p := Mid(a, b);
    Rec(n, p, Some(f(p)), (b - a) / 2.0)
  }

  /** The bracket a record was computed on: its midpoint Pn minus and plus
      its error. */
  function Left(r: Rec): real
  {
    r.Pn - r.error
  }

  function Right(r: Rec): real
  {
    r.Pn + r.error
  }

  /** The early-exit rule: the half-width is within tolerance or the
      midpoint is an exact root. */
  predicate Stops(r: Rec, tol: real)
  {
    r.error < tol || r.fPn == Some(0.0)
  }

  /** The half of record r's bracket that the next pass works on: the left
      half when f changes sign across it, the right half otherwise. */
  function Kept(f: real -> real, r: Rec): (real, real)
  {
    if Opposite(f(Left(r)), f(r.Pn)) then (Left(r), r.Pn) else (r.Pn, Right(r))
  }

  /** Passes n..maxIter of the halving loop on the bracket [a, b]. After
      the last pass the midpoint of the final bracket is returned. */
  function Halve(f: real -> real, a: real, b: real, tol: real, n: int, maxIter: int): (r: Outcome)
    ensures r.Success?
    decreases maxIter - n
  {
    if n > maxIter then Success(Mid(a, b), [])
    else
      var rec := Probe(f, a, b, n);
      var p := rec.Pn;
      if rec.error < tol || f(p) == 0.0 then Success(p, [rec])
      else if Opposite(f(a), f(p)) then Prepend([rec], Halve(f, a, p, tol, n + 1, maxIter))
      else Prepend([rec], Halve(f, p, b, tol, n + 1, maxIter))
  }

  /** The result of a bisection call on the endpoints a and b. */
  function Solve(f: real -> real, a: real, b: real, tol: real, maxIter: int): Outcome
  {
    var lo := Low(a, b);
    var hi := High(a, b);
    if f(lo) == 0.0 then Success(lo, [Rec(0, lo, Some(f(lo)), 0.0)])
    else if f(hi) == 0.0 then Success(hi, [Rec(0, hi, Some(f(hi)), 0.0)])
    else if Alike(f(lo), f(hi)) then Failure(InvalidBracket)
    else Halve(f, lo, hi, tol, 1, maxIter)
  }

  /** Record s is taken on the half of record r's bracket that the loop
      keeps. */
  predicate Follows(f: real -> real, r: Rec, s: Rec)
  {
    (Left(s), Right(s)) == Kept(f, r)
  }

  /** The value the halving loop returns after the trace t on [a, b]: the
      midpoint of [a, b] when no pass was made, the last Pn when the last
      record stops the loop, and otherwise the midpoint of the half the
      last pass kept. */
  function Final(f: real -> real, a: real, b: real, tol: real, t: seq<Rec>): real
  {
    if |t| == 0 then Mid(a, b)
    else if Stops(t[|t| - 1], tol) then t[|t| - 1].Pn
    else Mid(Kept(f, t[|t| - 1]).0, Kept(f, t[|t| - 1]).1)
  }

  /** Declarative description of the halving loop's result on [a, b]:
      contiguous indices, no more records than passes, the first record is
      taken on [a, b] itself and every later one on the half its
      predecessor kept, fPn is f at Pn, only the last record may meet the
      early-exit rule, the trace is short only when its last record meets
      it, and the returned value is the one Final describes. */
  ghost predicate IsBisectionRun(f: real -> real, a: real, b: real, tol: real, n: int, maxIter: int, x: real, t: seq<Rec>)
  {
    && Indexed(t, n)
    && |t| <= PassCount(n, maxIter)
    && (|t| > 0 ==> Left(t[0]) == a && Right(t[0]) == b)
    && (forall i :: 0 <= i < |t| ==> t[i].fPn == Some(f(t[i].Pn)))
    && (forall i, j {:trigger Follows(f, t[i], t[j])} :: 0 <= i < j < |t| && j == i + 1 ==> Follows(f, t[i], t[j]))
    && (forall i :: 0 <= i < |t| - 1 ==> !Stops(t[i], tol))
    && (|t| < PassCount(n, maxIter) ==> |t| > 0 && Stops(t[|t| - 1], tol))
    && x == Final(f, a, b, tol, t)
  }

  /** The source's test x * y < 0, decided on the signs of x and y. */
  predicate Opposite(x: real, y: real)
  {
    (x < 0.0 && y > 0.0) || (x > 0.0 && y < 0.0)
  }

  /** The source's test x * y > 0, decided on the signs of x and y. */
  predicate Alike(x: real, y: real)
  {
    (x < 0.0 && y < 0.0) || (x > 0.0 && y > 0.0)
  }

  /** Over the reals the sign tests are exactly the source's products. */
  lemma SignTests(x: real, y: real)
    ensures Opposite(x, y) <==> x * y < 0.0
    ensures Alike(x, y) <==> x * y > 0.0
  {
    if x > 0.0 {
      if y > 0.0 { assert x * y > 0.0; } else if y < 0.0 { assert x * y < 0.0; }
    } else if x < 0.0 {
      if y > 0.0 { assert x * y < 0.0; } else if y < 0.0 { assert x * y > 0.0; }
    }
  }

  /** If f changes sign across [a, b] and not at p, it changes sign across
      [p, b] whenever it does not across [a, p]. */
  lemma SignChangeKept(fa: real, fb: real, fp: real)
    requires Opposite(fa, fb) && fp != 0.0 && !Opposite(fa, fp)
    ensures Opposite(fp, fb)
  {
    if fa > 0.0 {
      assert fb < 0.0 && fp > 0.0;
    } else {
      assert fa < 0.0 && fb > 0.0 && fp < 0.0;
    }
  }

  /** The loop invariant of the source: a <= b, the cached values are f
      at the endpoints, and f changes sign across [a, b]. */
  predicate Bracketed(f: real -> real, a: real, b: real, fa: real, fb: real)
  {
    a <= b && fa == f(a) && fb == f(b) && Opposite(fa, fb)
  }

  /** The invariant holds on the left half [a, p] when the loop keeps it. */
  lemma KeepLeft(f: real -> real, a: real, b: real, fa: real, fb: real)
    requires Bracketed(f, a, b, fa, fb) && Opposite(fa, f(Mid(a, b)))
    ensures Bracketed(f, a, Mid(a, b), fa, f(Mid(a, b)))
  {
  }

  /** The invariant holds on the right half [p, b] when the loop keeps it,
      the midpoint not being a root. */
  lemma KeepRight(f: real -> real, a: real, b: real, fa: real, fb: real)
    requires Bracketed(f, a, b, fa, fb) && f(Mid(a, b)) != 0.0 && !Opposite(fa, f(Mid(a, b)))
    ensures Bracketed(f, Mid(a, b), b, f(Mid(a, b)), fb)
  {
    SignChangeKept(fa, fb, f(Mid(a, b)));
  }

  /** A pass on [a, b] whose record meets the early-exit rule ends the
      loop with the midpoint; the record joins the log. */
  lemma HalveStops(f: real -> real, a: real, b: real, tol: real, n: int, maxIter: int, log: seq<Rec>)
    requires n <= maxIter && Stops(Probe(f, a, b, n), tol)
    ensures Prepend(log, Halve(f, a, b, tol, n, maxIter)) == Success(Mid(a, b), log + [Probe(f, a, b, n)])
  {
  }

  /** Any other pass on [a, b] adds its record to the log and leaves the
      rest to the passes on the half [a2, b2] with the sign change. */
  lemma HalveContinues(f: real -> real, a: real, b: real, a2: real, b2: real, tol: real, n: int, maxIter: int, log: seq<Rec>)
    requires n <= maxIter && !Stops(Probe(f, a, b, n), tol)
    requires (a2, b2) == if Opposite(f(a), f(Mid(a, b))) then (a, Mid(a, b)) else (Mid(a, b), b)
    ensures Prepend(log, Halve(f, a, b, tol, n, maxIter)) ==
      Prepend(log + [Probe(f, a, b, n)], Halve(f, a2, b2, tol, n + 1, maxIter))
  {
    PrependPrepend(log, [Probe(f, a, b, n)], Halve(f, a2, b2, tol, n + 1, maxIter));
  }

  /** The source's function: reorder, short-circuit on an endpoint root,
      refuse a bracket without a sign change, then halve. The loop keeps
      a <= b, the cached values fa = f(a) and fb = f(b), and the sign
      change fa * fb < 0. */
  method BisectionWithLog(f: real -> real, a0: real, b0: real, tol: real, maxIter: int) returns (r: Outcome)
    ensures r == Solve(f, a0, b0, tol, maxIter)
  {
    var a, b := a0, b0;
    if a > b {
      a, b := b, a;
    }
    var fa, fb := f(a), f(b);
    if fa == 0.0 {
      return Success(a, [Rec(0, a, Some(fa), 0.0)]);
    }
    if fb == 0.0 {
      return Success(b, [Rec(0, b, Some(fb), 0.0)]);
    }
    if Alike(fa, fb) {
      return Failure(InvalidBracket);
    }
    assert Bracketed(f, a, b, fa, fb);
    ghost var whole := Halve(f, a, b, tol, 1, maxIter);
    var log: seq<Rec> := [];
    var n := 1;
    while n <= maxIter
      invariant Bracketed(f, a, b, fa, fb)
      invariant whole == Prepend(log, Halve(f, a, b, tol, n, maxIter))
    {
      var p := (a + b) / 2.0;
      var fp := f(p);
      var err := (b - a) / 2.0;
      ghost var before := log;
      log := log + [Rec(n, p, Some(fp), err)];
      if err < tol || fp == 0.0 {
        HalveStops(f, a, b, tol, n, maxIter, before);
        return Success(p, log);
      }
      if Opposite(fa, fp) {
        KeepLeft(f, a, b, fa, fb);
        HalveContinues(f, a, b, a, p, tol, n, maxIter, before);
        b, fb := p, fp;
      } else {
        KeepRight(f, a, b, fa, fb);
        HalveContinues(f, a, b, p, b, tol, n, maxIter, before);
        a, fa := p, fp;
      }
      n := n + 1;
    }
    return Success((a + b) / 2.0, log);
  }

  /** The pass on [a, b] records exactly that bracket, and the half it keeps
      is the one the loop continues on. */
  lemma ProbeBracket(f: real -> real, a: real, b: real, n: int)
    ensures Left(Probe(f, a, b, n)) == a && Right(Probe(f, a, b, n)) == b
    ensures var p := Mid(a, b);
      Kept(f, Probe(f, a, b, n)) == if Opposite(f(a), f(p)) then (a, p) else (p, b)
  {
  }

  /** A record with the index n taken on [a, b], with fPn = f(Pn), is the
      probe of pass n. */
  lemma ProbeUnique(f: real -> real, a: real, b: real, n: int, r: Rec)
    requires r.iter == n && Left(r) == a && Right(r) == b && r.fPn == Some(f(r.Pn))
    ensures r == Probe(f, a, b, n)
  {
  }

  lemma RunCons(f: real -> real, a: real, b: real, tol: real, n: int, maxIter: int, x: real, u: seq<Rec>)
    requires n <= maxIter
    requires !Stops(Probe(f, a, b, n), tol)
    requires IsBisectionRun(f, Kept(f, Probe(f, a, b, n)).0, Kept(f, Probe(f, a, b, n)).1, tol, n + 1, maxIter, x, u)
    ensures IsBisectionRun(f, a, b, tol, n, maxIter, x, [Probe(f, a, b, n)] + u)
  {
    var rec := Probe(f, a, b, n);
    var t := [rec] + u;
    ProbeBracket(f, a, b, n);
    assert Indexed(t, n) by {
      forall i | 0 <= i < |t| ensures t[i].iter == n + i {
        if i > 0 { assert t[i] == u[i - 1]; }
      }
    }
    forall i | 0 <= i < |t| ensures t[i].fPn == Some(f(t[i].Pn)) {
      if i > 0 { assert t[i] == u[i - 1]; }
    }
    forall i, j | 0 <= i < j < |t| && j == i + 1 ensures Follows(f, t[i], t[j]) {
      if i > 0 { assert t[i] == u[i - 1] && t[j] == u[j - 1] && Follows(f, u[i - 1], u[j - 1]); }
    }
    forall i | 0 <= i < |t| - 1 ensures !Stops(t[i], tol) {
      if i > 0 { assert t[i] == u[i - 1]; }
    }
    if |u| > 0 {
      assert t[|t| - 1] == u[|u| - 1];
    }
  }

  lemma RunUncons(f: real -> real, a: real, b: real, tol: real, n: int, maxIter: int, x: real, t: seq<Rec>)
    requires IsBisectionRun(f, a, b, tol, n, maxIter, x, t) && |t| > 0 && !Stops(t[0], tol)
    ensures n <= maxIter && t[0] == Probe(f, a, b, n)
    ensures IsBisectionRun(f, Kept(f, t[0]).0, Kept(f, t[0]).1, tol, n + 1, maxIter, x, t[1..])
  {
    ProbeUnique(f, a, b, n, t[0]);
    var u := t[1..];
    assert Indexed(u, n + 1) by {
      forall i | 0 <= i < |u| ensures u[i].iter == n + 1 + i {
        assert u[i] == t[i + 1];
      }
    }
    forall i | 0 <= i < |u| ensures u[i].fPn == Some(f(u[i].Pn)) {
      assert u[i] == t[i + 1];
    }
    forall i, j | 0 <= i < j < |u| && j == i + 1 ensures Follows(f, u[i], u[j]) {
      assert u[i] == t[i + 1] && u[j] == t[j + 1] && Follows(f, t[i + 1], t[j + 1]);
    }
    forall i | 0 <= i < |u| - 1 ensures !Stops(u[i], tol) {
      assert u[i] == t[i + 1];
    }
    if |u| > 0 {
      assert Follows(f, t[0], t[1]);
      assert u[|u| - 1] == t[|t| - 1];
    }
  }

  lemma {:induction false} HalveIsRun(f: real -> real, a: real, b: real, tol: real, n: int, maxIter: int)
    ensures var r := Halve(f, a, b, tol, n, maxIter);
      IsBisectionRun(f, a, b, tol, n, maxIter, r.approx, r.trace)
    decreases maxIter - n
  {
    if n <= maxIter {
      var rec := Probe(f, a, b, n);
      var p := rec.Pn;
      ProbeBracket(f, a, b, n);
      if !(rec.error < tol || f(p) == 0.0) {
        var k := Kept(f, rec);
        HalveIsRun(f, k.0, k.1, tol, n + 1, maxIter);
        var sub := Halve(f, k.0, k.1, tol, n + 1, maxIter);
        RunCons(f, a, b, tol, n, maxIter, sub.approx, sub.trace);
      }
    }
  }

  lemma {:induction false} RunIsHalve(f: real -> real, a: real, b: real, tol: real, n: int, maxIter: int, x: real, t: seq<Rec>)
    requires IsBisectionRun(f, a, b, tol, n, maxIter, x, t)
    ensures Halve(f, a, b, tol, n, maxIter) == Success(x, t)
    decreases |t|
  {
    if |t| > 0 {
      ProbeUnique(f, a, b, n, t[0]);
      ProbeBracket(f, a, b, n);
      if Stops(t[0], tol) {
        assert |t| == 1;
      } else {
        RunUncons(f, a, b, tol, n, maxIter, x, t);
        var k := Kept(f, t[0]);
        RunIsHalve(f, k.0, k.1, tol, n + 1, maxIter, x, t[1..]);
        assert t == [t[0]] + t[1..];
      }
    }
  }

  /** When neither endpoint is a root, a bisection call returns (x, t)
      exactly when f changes sign across the ordered bracket and (x, t) is
      the run the declarative description allows on it. */
  lemma BisectionRunIff(f: real -> real, a: real, b: real, tol: real, maxIter: int, x: real, t: seq<Rec>)
    requires f(Low(a, b)) != 0.0 && f(High(a, b)) != 0.0
    ensures Solve(f, a, b, tol, maxIter) == Success(x, t) <==>
      Opposite(f(Low(a, b)), f(High(a, b))) && IsBisectionRun(f, Low(a, b), High(a, b), tol, 1, maxIter, x, t)
  {
    var lo, hi := Low(a, b), High(a, b);
    HalveIsRun(f, lo, hi, tol, 1, maxIter);
    if Opposite(f(lo), f(hi)) && IsBisectionRun(f, lo, hi, tol, 1, maxIter, x, t) {
      RunIsHalve(f, lo, hi, tol, 1, maxIter, x, t);
    }
  }

  /** Record i of a run on [a, b] across which f changes sign: the error
      is (b - a) / 2^(i+1), the record's bracket lies inside [a, b], and f
      changes sign across it. */
  lemma {:induction false} RecordBracket(f: real -> real, a: real, b: real, tol: real, n: int, maxIter: int, x: real, t: seq<Rec>, i: int)
    requires IsBisectionRun(f, a, b, tol, n, maxIter, x, t) && 0 <= i < |t|
    requires a < b && Opposite(f(a), f(b))
    ensures t[i].error * Pow2(i + 1) == b - a && t[i].error > 0.0
    ensures a <= Left(t[i]) && Right(t[i]) <= b
    ensures Opposite(f(Left(t[i])), f(Right(t[i])))
    decreases i
  {
    if i > 0 {
      RecordBracket(f, a, b, tol, n, maxIter, x, t, i - 1);
      assert Follows(f, t[i - 1], t[i]);
      BracketStep(f, tol, t[i - 1], t[i]);
      ScaleStep(t[i - 1].error, t[i].error, i);
    }
  }

  /** One step of the halving loop on records: the next record's bracket
      is half of the previous one, inside it, and keeps the sign change. */
  lemma BracketStep(f: real -> real, tol: real, r: Rec, s: Rec)
    requires !Stops(r, tol) && r.fPn == Some(f(r.Pn)) && r.error > 0.0
    requires Opposite(f(Left(r)), f(Right(r)))
    requires Follows(f, r, s)
    ensures s.error * 2.0 == r.error && s.error > 0.0
    ensures Left(r) <= Left(s) && Right(s) <= Right(r)
    ensures Opposite(f(Left(s)), f(Right(s)))
  {
    if !Opposite(f(Left(r)), f(r.Pn)) {
      SignChangeKept(f(Left(r)), f(Right(r)), f(r.Pn));
    }
  }

  lemma ScaleStep(e: real, e2: real, k: nat)
    requires e2 * 2.0 == e
    ensures e2 * Pow2(k + 1) == e * Pow2(k)
  {
    calc {
      e2 * Pow2(k + 1);
      e2 * (2.0 * Pow2(k));
      (e2 * 2.0) * Pow2(k);
    }
  }

  /** The exits before the loop: the endpoints are taken in order, a root
      at the smaller endpoint wins over one at the larger, a bracket
      without a sign change fails with no trace, and that is the only
      failure. Swapping the arguments changes nothing. */
  lemma BisectionExits(f: real -> real, a: real, b: real, tol: real, maxIter: int)
    ensures var lo, hi := Low(a, b), High(a, b);
      && lo <= hi && {lo, hi} == {a, b}
      && (f(lo) == 0.0 ==> Solve(f, a, b, tol, maxIter) == Success(lo, [Rec(0, lo, Some(0.0), 0.0)]))
      && (f(lo) != 0.0 && f(hi) == 0.0 ==> Solve(f, a, b, tol, maxIter) == Success(hi, [Rec(0, hi, Some(0.0), 0.0)]))
      && (Solve(f, a, b, tol, maxIter).Failure? <==> f(lo) != 0.0 && f(hi) != 0.0 && Alike(f(lo), f(hi)))
      && (Solve(f, a, b, tol, maxIter).Failure? ==> Solve(f, a, b, tol, maxIter).error == InvalidBracket)
    ensures Solve(f, a, b, tol, maxIter) == Solve(f, b, a, tol, maxIter)
  {
  }

  /** The ordered bracket of a call that reaches the halving loop is
      proper and f changes sign across it. */
  lemma ProperBracket(f: real -> real, lo: real, hi: real)
    requires lo <= hi && f(lo) != 0.0 && f(hi) != 0.0 && !Alike(f(lo), f(hi))
    ensures lo < hi && Opposite(f(lo), f(hi))
  {
  }

  lemma RecordOfSolve(f: real -> real, lo: real, hi: real, tol: real, maxIter: int, x: real, t: seq<Rec>, i: int)
    requires lo < hi && Opposite(f(lo), f(hi))
    requires IsBisectionRun(f, lo, hi, tol, 1, maxIter, x, t) && 0 <= i < |t|
    ensures t[i].error == (hi - lo) / Pow2(i + 1)
    ensures lo <= Left(t[i]) && Right(t[i]) <= hi && lo < t[i].Pn < hi
    ensures Opposite(f(Left(t[i])), f(Right(t[i])))
  {
    RecordBracket(f, lo, hi, tol, 1, maxIter, x, t, i);
    DivideOut(t[i].error, Pow2(i + 1), hi - lo);
  }

  lemma DivideOut(x: real, p: real, d: real)
    requires p >= 1.0 && x * p == d
    ensures x == d / p
  {
  }

  lemma Halving(f: real -> real, lo: real, hi: real, tol: real, maxIter: int, x: real, t: seq<Rec>, i: int)
    requires lo < hi && Opposite(f(lo), f(hi))
    requires IsBisectionRun(f, lo, hi, tol, 1, maxIter, x, t) && 0 <= i < |t| - 1
    ensures t[i + 1].error * 2.0 == t[i].error && t[i + 1].error < t[i].error
    ensures t[i + 1].Pn == t[i].Pn - t[i + 1].error || t[i + 1].Pn == t[i].Pn + t[i + 1].error
  {
    RecordBracket(f, lo, hi, tol, 1, maxIter, x, t, i);
    assert Follows(f, t[i], t[i + 1]);
  }

  /** The records of a run on the bracket [lo, hi]: record i (from 0)
      has error (hi - lo) / 2^(i+1), its Pn strictly inside [lo, hi], and f
      changes sign across its bracket [Pn - error, Pn + error]; from one
      record to the next the error halves exactly and Pn moves by the new
      error to the left or to the right. */
  predicate Shrinking(f: real -> real, lo: real, hi: real, t: seq<Rec>)
  {
    && (forall i :: 0 <= i < |t| ==>
          && t[i].error == (hi - lo) / Pow2(i + 1)
          && lo < t[i].Pn < hi
          && Opposite(f(Left(t[i])), f(Right(t[i]))))
    && (forall i :: 0 <= i < |t| - 1 ==>
          && t[i + 1].error * 2.0 == t[i].error
          && t[i + 1].error < t[i].error
          && (t[i + 1].Pn == t[i].Pn - t[i + 1].error || t[i + 1].Pn == t[i].Pn + t[i + 1].error))
  }

  /** The records of a call that reaches the halving loop, in terms of the
      ordered endpoints: lo < hi, indices 1..k with k <= maxIter, fPn is f
      at Pn, and the bracket shrinks by halves as Shrinking describes. */
  lemma BisectionRecords(f: real -> real, a: real, b: real, tol: real, maxIter: int)
    ensures var lo, hi := Low(a, b), High(a, b);
      var r := Solve(f, a, b, tol, maxIter);
      r.Success? && f(lo) != 0.0 && f(hi) != 0.0 ==>
        && lo < hi
        && Indexed(r.trace, 1)
        && |r.trace| <= PassCount(1, maxIter)
        && (forall i :: 0 <= i < |r.trace| ==> r.trace[i].fPn == Some(f(r.trace[i].Pn)))
        && Shrinking(f, lo, hi, r.trace)
  {
    var lo, hi := Low(a, b), High(a, b);
    var r := Solve(f, a, b, tol, maxIter);
    if r.Success? && f(lo) != 0.0 && f(hi) != 0.0 {
      ProperBracket(f, lo, hi);
      HalveIsRun(f, lo, hi, tol, 1, maxIter);
      RunRecords(f, lo, hi, tol, maxIter, r.approx, r.trace);
    }
  }

  lemma RunRecords(f: real -> real, lo: real, hi: real, tol: real, maxIter: int, x: real, t: seq<Rec>)
    requires lo < hi && Opposite(f(lo), f(hi))
    requires IsBisectionRun(f, lo, hi, tol, 1, maxIter, x, t)
    ensures Shrinking(f, lo, hi, t)
  {
    forall i | 0 <= i < |t|
      ensures t[i].error == (hi - lo) / Pow2(i + 1) && lo < t[i].Pn < hi
      ensures Opposite(f(Left(t[i])), f(Right(t[i])))
    {
      RecordOfSolve(f, lo, hi, tol, maxIter, x, t, i);
    }
    forall i | 0 <= i < |t| - 1
      ensures t[i + 1].error * 2.0 == t[i].error && t[i + 1].error < t[i].error
      ensures t[i + 1].Pn == t[i].Pn - t[i + 1].error || t[i + 1].Pn == t[i].Pn + t[i + 1].error
    {
      Halving(f, lo, hi, tol, maxIter, x, t, i);
    }
  }

  /** Once the half-width after m passes is below tol, at most m records
      are made: if (hi - lo) / 2^m < tol for some 1 <= m <= maxIter then
      the trace has at most m records. */
  lemma BisectionWithinTolerance(f: real -> real, a: real, b: real, tol: real, maxIter: int, m: int)
    requires 1 <= m <= maxIter
    requires (High(a, b) - Low(a, b)) / Pow2(m) < tol
    ensures Solve(f, a, b, tol, maxIter).Success? ==> |Solve(f, a, b, tol, maxIter).trace| <= m
  {
    var lo, hi := Low(a, b), High(a, b);
    var r := Solve(f, a, b, tol, maxIter);
    if r.Success? && f(lo) != 0.0 && f(hi) != 0.0 {
      ProperBracket(f, lo, hi);
      HalveIsRun(f, lo, hi, tol, 1, maxIter);
      ToleranceRun(f, lo, hi, tol, maxIter, r.approx, r.trace, m);
    }
  }

  lemma ToleranceRun(f: real -> real, lo: real, hi: real, tol: real, maxIter: int, x: real, t: seq<Rec>, m: int)
    requires lo < hi && Opposite(f(lo), f(hi)) && 1 <= m
    requires IsBisectionRun(f, lo, hi, tol, 1, maxIter, x, t)
    requires (hi - lo) / Pow2(m) < tol
    ensures |t| <= m
  {
    if |t| > m {
      RecordOfSolve(f, lo, hi, tol, maxIter, x, t, m - 1);
    }
  }

  /** How a call that reaches the halving loop ends: no record but the
      last meets the early-exit rule; when the last one does, the result is
      its Pn; a trace shorter than maxIter always ends that way; otherwise
      the iterations were exhausted, there are exactly maxIter records, and
      the result is the midpoint of the kept half of the last bracket,
      half an error away from the last Pn and so different from it. With
      maxIter <= 0 the result is the midpoint of [lo, hi] and the trace is
      empty. */
  lemma BisectionEnds(f: real -> real, a: real, b: real, tol: real, maxIter: int)
    ensures var lo, hi := Low(a, b), High(a, b);
      var r := Solve(f, a, b, tol, maxIter);
      r.Success? && f(lo) != 0.0 && f(hi) != 0.0 ==>
        var t := r.trace;
        && (forall i :: 0 <= i < |t| - 1 ==> !Stops(t[i], tol))
        && (|t| > 0 && Stops(t[|t| - 1], tol) ==> r.approx == t[|t| - 1].Pn)
        && (|t| < maxIter ==> |t| > 0 && Stops(t[|t| - 1], tol))
        && (|t| > 0 && !Stops(t[|t| - 1], tol) ==>
              && |t| == maxIter
              && (r.approx == t[|t| - 1].Pn - t[|t| - 1].error / 2.0 ||
                  r.approx == t[|t| - 1].Pn + t[|t| - 1].error / 2.0)
              && r.approx != t[|t| - 1].Pn
              && lo < r.approx < hi)
        && (maxIter <= 0 ==> t == [] && r.approx == Mid(lo, hi))
  {
    var lo, hi := Low(a, b), High(a, b);
    var r := Solve(f, a, b, tol, maxIter);
    if r.Success? && f(lo) != 0.0 && f(hi) != 0.0 {
      ProperBracket(f, lo, hi);
      HalveIsRun(f, lo, hi, tol, 1, maxIter);
      var t := r.trace;
      if |t| > 0 && !Stops(t[|t| - 1], tol) {
        Exhausted(f, lo, hi, tol, maxIter, r.approx, t);
      }
    }
  }

  lemma Exhausted(f: real -> real, lo: real, hi: real, tol: real, maxIter: int, x: real, t: seq<Rec>)
    requires lo < hi && Opposite(f(lo), f(hi))
    requires IsBisectionRun(f, lo, hi, tol, 1, maxIter, x, t) && |t| > 0 && !Stops(t[|t| - 1], tol)
    ensures x == t[|t| - 1].Pn - t[|t| - 1].error / 2.0 || x == t[|t| - 1].Pn + t[|t| - 1].error / 2.0
    ensures x != t[|t| - 1].Pn && lo < x < hi
  {
    var last := t[|t| - 1];
    RecordBracket(f, lo, hi, tol, 1, maxIter, x, t, |t| - 1);
    assert x == Mid(Kept(f, last).0, Kept(f, last).1);
  }
}
