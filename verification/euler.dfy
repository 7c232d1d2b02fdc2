/** The Euler steppers euler_explicit and euler_implicit: recursive builders of a
    trajectory of s samples (t, y) on the time grid t0 + h, t0 + 2h, ...

    The right-hand side f is a one-argument real -> real value, called only through
    the forward difference; the implicit step hands f and df themselves to the
    solver, seeded with a one-step explicit prediction, and then advances with a
    forward difference whose step is the new time t. */
module Euler {
  import opened Outcomes
  import opened Differences
  import RootFinder

  /** A point (t, y) of a trajectory. */
  type Sample = (real, real)

  /** A pluggable root solver: solver(f, df, guess). */
  type Solver = (real -> real, real -> real, real) -> Result<real>

  /** The default solver of euler_implicit: newton_raphson with its defaults
      tol = 1e-6 and max_iter = 100. It fails on a zero derivative at the guess
      and never with a division by zero. */
  function DefaultSolver(): (solver: Solver)
    ensures forall f: real -> real, df: real -> real, x0: real ::
              solver(f, df, x0) == RootFinder.Newton(f, df, x0, 0.000001, 100)
    ensures forall f: real -> real, df: real -> real, x0: real ::
              df(x0) == 0.0 ==> solver(f, df, x0) == Err(ZeroDerivative)
    ensures forall f: real -> real, df: real -> real, x0: real ::
              solver(f, df, x0) != Err(DivisionByZero)
  {
    (f: real -> real, df: real -> real, x0: real) => RootFinder.Newton(f, df, x0, 0.000001, 100)
  }

  /** The sample the next step starts from after the samples r: the initial
      point (t0, y0) when r is empty, its last sample otherwise. */
  function After(t0: real, y0: real, r: seq<Sample>): Sample
  {
    if |r| == 0 then (t0, y0) else r[|r| - 1]
  }

  /** euler_explicit(f, y0, t0, h, s): the empty list when s < 1, otherwise the
      sample (t0 + h, y0 + h * forward_difference(f, y0, h)) followed by the
      trajectory from that sample with s - 1 steps. The division inside the
      forward difference needs h != 0 whenever a step is taken. */
  function EulerExplicit(f: real -> real, y0: real, t0: real, h: real, s: int): (r: seq<Sample>)
    requires s < 1 || h != 0.0
    ensures |r| == if s >= 1 then s else 0
    ensures forall k :: 0 <= k < |r| ==> r[k].0 == t0 + (k + 1) as real * h
    decreases s
  {
    if s >= 1 then
      var t := t0 + h;
      var y := y0 + h * ForwardDifference(f, y0, h);
      [(t, y)] + EulerExplicit(f, y, t, h, s - 1)
    else
      []
  }

  /** Every explicit step k advances the previous state y by h times the forward
      difference of f at y, that is by f(y + h) - f(y). */
  lemma {:induction false} EulerExplicitStep(f: real -> real, y0: real, t0: real, h: real, s: int, k: int)
    requires h != 0.0 && 0 <= k < s
    ensures var r := EulerExplicit(f, y0, t0, h, s);
            var y := After(t0, y0, r[..k]).1;
            r[k].1 == y + h * ForwardDifference(f, y, h) && r[k].1 == y + f(y + h) - f(y)
    decreases k
  {
    var r := EulerExplicit(f, y0, t0, h, s);
    if k > 0 {
      var first := r[0];
      var rest := EulerExplicit(f, first.1, first.0, h, s - 1);
      assert r == [first] + rest;
      EulerExplicitStep(f, first.1, first.0, h, s - 1, k - 1);
      assert r[k] == rest[k - 1];
      assert After(t0, y0, r[..k]) == After(first.0, first.1, rest[..k - 1]);
    }
  }

  /** Prefix law: the first k samples of an s-step run are the k-step run. */
  lemma {:induction false} EulerExplicitPrefix(f: real -> real, y0: real, t0: real, h: real, s: int, k: int)
    requires s < 1 || h != 0.0
    requires 0 <= k <= s
    ensures EulerExplicit(f, y0, t0, h, s)[..k] == EulerExplicit(f, y0, t0, h, k)
    decreases k
  {
    if k > 0 {
      var r := EulerExplicit(f, y0, t0, h, s);
      var first := r[0];
      EulerExplicitPrefix(f, first.1, first.0, h, s - 1, k - 1);
      assert r == [first] + EulerExplicit(f, first.1, first.0, h, s - 1);
      assert EulerExplicit(f, y0, t0, h, k) == [first] + EulerExplicit(f, first.1, first.0, h, k - 1);
    }
  }

  /** For an affine f(u) = a*u + b every explicit step adds a*h, so the k-th state
      is y0 + (k + 1)*a*h whatever b is. */
  lemma {:induction false} EulerExplicitAffine(f: real -> real, a: real, b: real, y0: real, t0: real, h: real, s: int, k: int)
    requires forall u :: f(u) == a * u + b
    requires h != 0.0 && 0 <= k < s
    ensures EulerExplicit(f, y0, t0, h, s)[k].1 == y0 + (k + 1) as real * (a * h)
    decreases k
  {
    var r := EulerExplicit(f, y0, t0, h, s);
    EulerExplicitStep(f, y0, t0, h, s, k);
    var y := After(t0, y0, r[..k]).1;
    AffineIncrement(f, a, b, y, h);
    if k == 0 {
      assert y == y0;
    } else {
      EulerExplicitAffine(f, a, b, y0, t0, h, s, k - 1);
      assert y == r[k - 1].1;
    }
    SuccessorMultiple(k, a * h);
  }

  /** An affine f increases by a*h over a step of length h. */
  lemma AffineIncrement(f: real -> real, a: real, b: real, y: real, h: real)
    requires forall u :: f(u) == a * u + b
    ensures f(y + h) - f(y) == a * h
  {
  }

  /** (k + 1) * c == k * c + c over the reals. */
  lemma SuccessorMultiple(k: int, c: real)
    ensures (k + 1) as real * c == k as real * c + c
  {
  }

  /** One step of euler_implicit from (t0, y0): predict with a one-step explicit
      run, let the solver refine that guess on f and df themselves, then advance
      with a forward difference whose step is the new time t = t0 + h.
      Both divisions (by h in the prediction, by t in the correction) fail with
      DivisionByZero; a solver failure is passed on unchanged. */
  function ImplicitStep(f: real -> real, df: real -> real, y0: real, t0: real, h: real, solver: Solver): (r: Result<Sample>)
    ensures h == 0.0 ==> r == Err(DivisionByZero)
    ensures h != 0.0 && solver(f, df, y0 + f(y0 + h) - f(y0)).Err? ==>
              r == Err(solver(f, df, y0 + f(y0 + h) - f(y0)).error)
    ensures h != 0.0 && solver(f, df, y0 + f(y0 + h) - f(y0)).Ok? && t0 + h == 0.0 ==>
              r == Err(DivisionByZero)
    ensures r.Ok? ==> r.value.0 == t0 + h
  {
    if h == 0.0 then
      Err(DivisionByZero)
    else
      var t := t0 + h;
      var predicted := EulerExplicit(f, y0, t0, h, 1);
      match solver(f, df, predicted[|predicted| - 1].1)
      case Err(e) => Err(e)
      case Ok(ye) =>
        if t == 0.0 then Err(DivisionByZero)
        else Ok((t, y0 + h * ForwardDifference(f, ye, t)))
  }

  /** A successful implicit step from (t0, y0) happens exactly when h != 0, the
      solver accepts the explicit prediction y0 + f(y0 + h) - f(y0) as its guess
      and returns some ye, and the new time t = t0 + h is nonzero; the new state y
      then satisfies t * (y - y0) == h * (f(ye + t) - f(ye)). */
  lemma ImplicitStepFormula(f: real -> real, df: real -> real, y0: real, t0: real, h: real, solver: Solver)
    ensures ImplicitStep(f, df, y0, t0, h, solver).Ok? <==>
              h != 0.0 && t0 + h != 0.0 && solver(f, df, y0 + f(y0 + h) - f(y0)).Ok?
    ensures ImplicitStep(f, df, y0, t0, h, solver).Ok? ==>
              var y := ImplicitStep(f, df, y0, t0, h, solver).value.1;
              var ye := solver(f, df, y0 + f(y0 + h) - f(y0)).value;
              (t0 + h) * (y - y0) == h * (f(ye + (t0 + h)) - f(ye))
  {
  }

  /** euler_implicit(f, df, y0, t0, h, s, solver): the empty list when s < 1;
      otherwise one implicit step followed by the trajectory from the new sample
      with s - 1 steps and the same solver. Any failure aborts the whole call. */
  function EulerImplicit(f: real -> real, df: real -> real, y0: real, t0: real, h: real, s: int, solver: Solver)
    : (r: Result<seq<Sample>>)
    ensures s < 1 ==> r == Ok([])
    ensures s >= 1 && h == 0.0 ==> r == Err(DivisionByZero)
    ensures r.Ok? ==> |r.value| == (if s >= 1 then s else 0)
    ensures r.Ok? ==> forall k :: 0 <= k < |r.value| ==> r.value[k].0 == t0 + (k + 1) as real * h
    decreases s
  {
    if s >= 1 then
      match ImplicitStep(f, df, y0, t0, h, solver)
      case Err(e) => Err(e)
      case Ok(sample) =>
        match EulerImplicit(f, df, sample.1, sample.0, h, s - 1, solver)
        case Err(e) => Err(e)
        case Ok(rest) => Ok([sample] + rest)
    else
      Ok([])
  }

  /** Every sample of a successful implicit run is one ImplicitStep, with the
      same solver, from the sample before it. */
  lemma {:induction false} EulerImplicitStepAt(f: real -> real, df: real -> real, y0: real, t0: real, h: real, s: int,
                                               solver: Solver, r: seq<Sample>, k: int)
    requires EulerImplicit(f, df, y0, t0, h, s, solver) == Ok(r)
    requires 0 <= k < |r|
    ensures ImplicitStep(f, df, After(t0, y0, r[..k]).1, After(t0, y0, r[..k]).0, h, solver) == Ok(r[k])
    decreases k
  {
    if k > 0 {
      var first := ImplicitStep(f, df, y0, t0, h, solver).value;
      var rest := EulerImplicit(f, df, first.1, first.0, h, s - 1, solver).value;
      assert r == [first] + rest;
      EulerImplicitStepAt(f, df, first.1, first.0, h, s - 1, solver, rest, k - 1);
      assert After(t0, y0, r[..k]) == After(first.0, first.1, rest[..k - 1]);
    }
  }

  /** Prefix law: the first k samples of a successful s-step run are the
      successful k-step run. */
  lemma {:induction false} EulerImplicitPrefix(f: real -> real, df: real -> real, y0: real, t0: real, h: real, s: int,
                                               solver: Solver, k: int)
    requires EulerImplicit(f, df, y0, t0, h, s, solver).Ok?
    requires 0 <= k <= s
    ensures EulerImplicit(f, df, y0, t0, h, k, solver) == Ok(EulerImplicit(f, df, y0, t0, h, s, solver).value[..k])
    decreases k
  {
    if k > 0 {
      var r := EulerImplicit(f, df, y0, t0, h, s, solver).value;
      var first := ImplicitStep(f, df, y0, t0, h, solver).value;
      var rest := EulerImplicit(f, df, first.1, first.0, h, s - 1, solver).value;
      EulerImplicitPrefix(f, df, first.1, first.0, h, s - 1, solver, k - 1);
      assert r[..k] == [first] + rest[..k - 1];
    }
  }

  /** Step k fails with e: the first k steps succeed and the step from the sample
      they end at fails with e. */
  predicate FailsAt(f: real -> real, df: real -> real, y0: real, t0: real, h: real, solver: Solver, k: int, e: Error)
  {
    k >= 0 &&
    match EulerImplicit(f, df, y0, t0, h, k, solver)
    case Err(_) => false
    case Ok(p) =>
      var prev := After(t0, y0, p);
      ImplicitStep(f, df, prev.1, prev.0, h, solver) == Err(e)
  }

  /** After a successful first step, step k of the run fails exactly when step
      k - 1 of the run from the first sample fails. */
  lemma FailsAtShift(f: real -> real, df: real -> real, y0: real, t0: real, h: real, solver: Solver,
                     first: Sample, k: int, e: Error)
    requires ImplicitStep(f, df, y0, t0, h, solver) == Ok(first) && k >= 1
    ensures FailsAt(f, df, y0, t0, h, solver, k, e) == FailsAt(f, df, first.1, first.0, h, solver, k - 1, e)
  {
    match EulerImplicit(f, df, first.1, first.0, h, k - 1, solver)
    case Err(_) =>
    case Ok(rest) =>
      assert EulerImplicit(f, df, y0, t0, h, k, solver) == Ok([first] + rest);
      assert After(t0, y0, [first] + rest) == After(first.0, first.1, rest);
  }

  /** Step 0 fails with e exactly when the first ImplicitStep does; a later step
      can fail only after a successful first step. */
  lemma FailsAtFirst(f: real -> real, df: real -> real, y0: real, t0: real, h: real, solver: Solver, k: int, e: Error)
    requires FailsAt(f, df, y0, t0, h, solver, k, e)
    ensures k == 0 ==> ImplicitStep(f, df, y0, t0, h, solver) == Err(e)
    ensures k > 0 ==> ImplicitStep(f, df, y0, t0, h, solver).Ok?
  {
    if k > 0 {
      assert EulerImplicit(f, df, y0, t0, h, k, solver).Ok?;
    }
  }

  /** A failed first step is the failure of the whole run. */
  lemma FailureAtFirstStep(f: real -> real, df: real -> real, y0: real, t0: real, h: real, s: int,
                           solver: Solver, e: Error)
    requires s >= 1 && ImplicitStep(f, df, y0, t0, h, solver) == Err(e)
    ensures EulerImplicit(f, df, y0, t0, h, s, solver) == Err(e)
  {
  }

  /** A failure after a successful first step is the failure of the whole run. */
  lemma FailureAfterFirstStep(f: real -> real, df: real -> real, y0: real, t0: real, h: real, s: int,
                              solver: Solver, first: Sample, e: Error)
    requires s >= 1 && ImplicitStep(f, df, y0, t0, h, solver) == Ok(first)
    requires EulerImplicit(f, df, first.1, first.0, h, s - 1, solver) == Err(e)
    ensures EulerImplicit(f, df, y0, t0, h, s, solver) == Err(e)
  {
  }

  /** Failure propagation: when step k < s fails with e, the whole s-step call
      fails with e and returns no samples at all. */
  lemma {:induction false} EulerImplicitFailsWith(f: real -> real, df: real -> real, y0: real, t0: real, h: real, s: int,
                                                  solver: Solver, k: int, e: Error)
    requires 0 <= k < s && FailsAt(f, df, y0, t0, h, solver, k, e)
    ensures EulerImplicit(f, df, y0, t0, h, s, solver) == Err(e)
    decreases k
  {
    var step := ImplicitStep(f, df, y0, t0, h, solver);
    FailsAtFirst(f, df, y0, t0, h, solver, k, e);
    if k == 0 {
      FailureAtFirstStep(f, df, y0, t0, h, s, solver, e);
    } else {
      FailsAtShift(f, df, y0, t0, h, solver, step.value, k, e);
      EulerImplicitFailsWith(f, df, step.value.1, step.value.0, h, s - 1, solver, k - 1, e);
      FailureAfterFirstStep(f, df, y0, t0, h, s, solver, step.value, e);
    }
  }

  /** Conversely, a failed s-step call failed at some step k < s with that error. */
  lemma {:induction false} EulerImplicitFailureHasStep(f: real -> real, df: real -> real, y0: real, t0: real, h: real, s: int,
                                                       solver: Solver, e: Error)
    requires EulerImplicit(f, df, y0, t0, h, s, solver) == Err(e)
    ensures exists k :: 0 <= k < s && FailsAt(f, df, y0, t0, h, solver, k, e)
    decreases s
  {
    match ImplicitStep(f, df, y0, t0, h, solver)
    case Err(_) =>
      assert FailsAt(f, df, y0, t0, h, solver, 0, e);
    case Ok(first) =>
      EulerImplicitFailureHasStep(f, df, first.1, first.0, h, s - 1, solver, e);
      var k :| 0 <= k < s - 1 && FailsAt(f, df, first.1, first.0, h, solver, k, e);
      FailsAtShift(f, df, y0, t0, h, solver, first, k + 1, e);
  }

  /** The s-step call fails with e exactly when some step k < s fails with e. */
  lemma EulerImplicitErrIff(f: real -> real, df: real -> real, y0: real, t0: real, h: real, s: int,
                            solver: Solver, e: Error)
    ensures EulerImplicit(f, df, y0, t0, h, s, solver) == Err(e) <==>
            exists k :: 0 <= k < s && FailsAt(f, df, y0, t0, h, solver, k, e)
  {
    if EulerImplicit(f, df, y0, t0, h, s, solver) == Err(e) {
      EulerImplicitFailureHasStep(f, df, y0, t0, h, s, solver, e);
    }
    if exists k :: 0 <= k < s && FailsAt(f, df, y0, t0, h, solver, k, e) {
      var k :| 0 <= k < s && FailsAt(f, df, y0, t0, h, solver, k, e);
      EulerImplicitFailsWith(f, df, y0, t0, h, s, solver, k, e);
    }
  }

  /** With the default Newton solver, a derivative that is exactly zero at the
      explicit prediction makes the first implicit step, and so the whole call,
      fail with ZeroDerivative. */
  lemma DefaultSolverZeroDerivative(f: real -> real, df: real -> real, y0: real, t0: real, h: real, s: int)
    requires s >= 1 && h != 0.0 && df(y0 + f(y0 + h) - f(y0)) == 0.0
    ensures EulerImplicit(f, df, y0, t0, h, s, DefaultSolver()) == Err(ZeroDerivative)
  {
  }
}
