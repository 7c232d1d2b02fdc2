/** The Newton-Raphson root finder, newton_raphson(f, df, x0, tol, max_iter).
    f and df are opaque real -> real values; arithmetic is over exact reals.

    NewtonFrom is the specification of the loop: the outcome of the remaining
    iterations from the current iterate. Iterate names the k-th iterate, and the
    predicates Moved, Running, ConvergesAt and StalledAt say what happened at
    iteration k (counted from 0, i.e. n_iter == k + 1 in the source). */
module RootFinder {
  import opened Outcomes

  function Abs(x: real): real { if x < 0.0 then -x else x }

  /** The update x - f(x)/df(x), defined away from a zero derivative. */
  function NewtonUpdate(f: real -> real, df: real -> real, x: real): real
    requires df(x) != 0.0
  {
    x - f(x) / df(x)
  }

  /** The k-th Newton iterate from x0 (the 0-th is x0 itself), or None when a
      zero derivative is met before it. */
  function Iterate(f: real -> real, df: real -> real, x0: real, k: nat): Option<real>
    decreases k
  {
    if k == 0 then Some(x0)
    else if df(x0) == 0.0 then None
    else Iterate(f, df, NewtonUpdate(f, df, x0), k - 1)
  }

  /** Iteration k took a full step without stopping: its derivative was nonzero
      and the update moved by at least tol. */
  predicate Moved(f: real -> real, df: real -> real, x0: real, tol: real, k: nat)
  {
    match Iterate(f, df, x0, k)
    case None => false
    case Some(x) => df(x) != 0.0 && Abs(NewtonUpdate(f, df, x) - x) >= tol
  }

  /** The first k iterations all moved, so the loop is still running after them. */
  predicate Running(f: real -> real, df: real -> real, x0: real, tol: real, k: nat)
  {
    forall j :: 0 <= j < k ==> Moved(f, df, x0, tol, j)
  }

  /** Iteration k returns r: the update from the k-th iterate is r and it is
      closer than tol to that iterate. */
  predicate ConvergesAt(f: real -> real, df: real -> real, x0: real, tol: real, k: nat, r: real)
  {
    match Iterate(f, df, x0, k)
    case None => false
    case Some(x) => df(x) != 0.0 && r == NewtonUpdate(f, df, x) && Abs(r - x) < tol
  }

  /** Iteration k meets a derivative that is exactly zero. */
  predicate StalledAt(f: real -> real, df: real -> real, x0: real, k: nat)
  {
    match Iterate(f, df, x0, k)
    case None => false
    case Some(x) => df(x) == 0.0
  }

  /** What the loop produces from iterate x with `remaining` iterations left.
      Its only failures are the two exceptions newton_raphson raises. */
  function NewtonFrom(f: real -> real, df: real -> real, x: real, tol: real, remaining: nat): (r: Result<real>)
    ensures r.Err? ==> r.error == ZeroDerivative || r.error == MaxIterExceeded
    decreases remaining
  {
    if remaining == 0 then Err(MaxIterExceeded)
    else if df(x) == 0.0 then Err(ZeroDerivative)
    else
      var xNew := NewtonUpdate(f, df, x);
      if Abs(xNew - x) < tol then Ok(xNew)
      else NewtonFrom(f, df, xNew, tol, remaining - 1)
  }

  /** The outcome of newton_raphson(f, df, x0, tol, max_iter); range(1, max_iter + 1)
      is empty when max_iter <= 0. */
  function Newton(f: real -> real, df: real -> real, x0: real, tol: real, maxIter: int): Result<real>
  {
    NewtonFrom(f, df, x0, tol, if maxIter > 0 then maxIter else 0)
  }

  /** newton_raphson as a loop over n_iter = 1 .. max_iter that updates the local x. */
  method NewtonRaphson(f: real -> real, df: real -> real, x0: real, tol: real, maxIter: int)
    returns (r: Result<real>)
    ensures r == Newton(f, df, x0, tol, maxIter)
    ensures maxIter <= 0 ==> r == Err(MaxIterExceeded)
    ensures maxIter >= 1 && df(x0) == 0.0 ==> r == Err(ZeroDerivative)
  {
    var x := x0;
    var nIter := 1;
    while nIter <= maxIter
      invariant 1 <= nIter && (maxIter >= 1 ==> nIter <= maxIter + 1)
      invariant Iterate(f, df, x0, nIter - 1) == Some(x)
      invariant Running(f, df, x0, tol, nIter - 1)
      invariant Newton(f, df, x0, tol, maxIter)
                == NewtonFrom(f, df, x, tol, if maxIter >= nIter then maxIter - nIter + 1 else 0)
      decreases maxIter - nIter
    {
      var fx := f(x);
      var dfx := df(x);
      if dfx == 0.0 {
        return Err(ZeroDerivative);
      }
      var xNew := x - fx / dfx;
      if Abs(xNew - x) < tol {
        return Ok(xNew);
      }
      IterateNext(f, df, x0, nIter - 1, x);
      assert Moved(f, df, x0, tol, nIter - 1);
      x := xNew;
      nIter := nIter + 1;
    }
    return Err(MaxIterExceeded);
  }

  /** One more update extends the iterates: x_{k+1} = x_k - f(x_k)/df(x_k). */
  lemma {:induction false} IterateNext(f: real -> real, df: real -> real, x0: real, k: nat, x: real)
    requires Iterate(f, df, x0, k) == Some(x) && df(x) != 0.0
    ensures Iterate(f, df, x0, k + 1) == Some(NewtonUpdate(f, df, x))
    decreases k
  {
    if k > 0 {
      IterateNext(f, df, NewtonUpdate(f, df, x0), k - 1, x);
    }
  }

  /** After a first step that moved, the run from x0 is the run from x1 shifted by one. */
  lemma ShiftRunning(f: real -> real, df: real -> real, x0: real, tol: real, k: nat)
    requires Moved(f, df, x0, tol, 0)
    ensures Running(f, df, x0, tol, k + 1) <==> Running(f, df, NewtonUpdate(f, df, x0), tol, k)
  {
    var x1 := NewtonUpdate(f, df, x0);
    forall j | 0 <= j < k
      ensures Moved(f, df, x0, tol, j + 1) == Moved(f, df, x1, tol, j)
    {
      assert Iterate(f, df, x0, j + 1) == Iterate(f, df, x1, j);
    }
    if Running(f, df, x1, tol, k) {
      forall j | 0 <= j < k + 1 ensures Moved(f, df, x0, tol, j) {
        if j > 0 { assert Moved(f, df, x1, tol, j - 1); }
      }
    }
    if Running(f, df, x0, tol, k + 1) {
      forall j | 0 <= j < k ensures Moved(f, df, x1, tol, j) {
        assert Moved(f, df, x0, tol, j + 1);
      }
    }
  }

  /** While the first k iterations all moved, the loop is exactly in the state
      "iterate k with m - k iterations left". */
  lemma {:induction false} NewtonResumes(f: real -> real, df: real -> real, x0: real, tol: real, m: nat, k: nat)
    requires k <= m && Running(f, df, x0, tol, k)
    ensures Iterate(f, df, x0, k).Some?
    ensures NewtonFrom(f, df, x0, tol, m) == NewtonFrom(f, df, Iterate(f, df, x0, k).value, tol, m - k)
    decreases k
  {
    if k > 0 {
      assert Moved(f, df, x0, tol, 0);
      var x1 := NewtonUpdate(f, df, x0);
      ShiftRunning(f, df, x0, tol, k - 1);
      NewtonResumes(f, df, x1, tol, m - 1, k - 1);
    }
  }

  /** Every outcome of the loop from x comes from one of its three exits. */
  lemma {:induction false} NewtonFromExits(f: real -> real, df: real -> real, x: real, tol: real, m: nat)
    ensures NewtonFrom(f, df, x, tol, m) == Err(MaxIterExceeded) ==> Running(f, df, x, tol, m)
    ensures NewtonFrom(f, df, x, tol, m) == Err(ZeroDerivative) ==>
              exists k :: 0 <= k < m && Running(f, df, x, tol, k) && StalledAt(f, df, x, k)
    ensures NewtonFrom(f, df, x, tol, m).Ok? ==>
              exists k :: 0 <= k < m && Running(f, df, x, tol, k)
                          && ConvergesAt(f, df, x, tol, k, NewtonFrom(f, df, x, tol, m).value)
    decreases m
  {
    if m > 0 && df(x) != 0.0 {
      var x1 := NewtonUpdate(f, df, x);
      if Abs(x1 - x) >= tol {
        assert Moved(f, df, x, tol, 0);
        NewtonFromExits(f, df, x1, tol, m - 1);
        var r := NewtonFrom(f, df, x, tol, m);
        assert r == NewtonFrom(f, df, x1, tol, m - 1);
        if r == Err(MaxIterExceeded) {
          ShiftRunning(f, df, x, tol, m - 1);
        } else if r == Err(ZeroDerivative) {
          var k :| 0 <= k < m - 1 && Running(f, df, x1, tol, k) && StalledAt(f, df, x1, k);
          ShiftRunning(f, df, x, tol, k);
          assert Iterate(f, df, x, k + 1) == Iterate(f, df, x1, k);
          assert StalledAt(f, df, x, k + 1);
        } else if r.Ok? {
          var k :| 0 <= k < m - 1 && Running(f, df, x1, tol, k) && ConvergesAt(f, df, x1, tol, k, r.value);
          ShiftRunning(f, df, x, tol, k);
          assert Iterate(f, df, x, k + 1) == Iterate(f, df, x1, k);
          assert ConvergesAt(f, df, x, tol, k + 1, r.value);
        }
      } else {
        assert ConvergesAt(f, df, x, tol, 0, x1);
        assert Running(f, df, x, tol, 0);
      }
    } else if m > 0 {
      assert StalledAt(f, df, x, 0) && Running(f, df, x, tol, 0);
    }
  }

  /** The call returns r exactly when, within max_iter iterations, every earlier
      iteration moved by at least tol and iteration k produced r with |r - x_k| < tol. */
  lemma NewtonOkIff(f: real -> real, df: real -> real, x0: real, tol: real, maxIter: int, r: real)
    ensures Newton(f, df, x0, tol, maxIter) == Ok(r) <==>
            exists k :: 0 <= k < maxIter && Running(f, df, x0, tol, k) && ConvergesAt(f, df, x0, tol, k, r)
  {
    var m: nat := if maxIter > 0 then maxIter else 0;
    NewtonFromExits(f, df, x0, tol, m);
    if exists k :: 0 <= k < maxIter && Running(f, df, x0, tol, k) && ConvergesAt(f, df, x0, tol, k, r) {
      var k :| 0 <= k < maxIter && Running(f, df, x0, tol, k) && ConvergesAt(f, df, x0, tol, k, r);
      NewtonResumes(f, df, x0, tol, m, k);
    }
  }

  /** The zero-derivative error is raised exactly when some iteration within
      max_iter meets df(x_k) == 0 after all earlier ones moved. */
  lemma NewtonZeroDerivativeIff(f: real -> real, df: real -> real, x0: real, tol: real, maxIter: int)
    ensures Newton(f, df, x0, tol, maxIter) == Err(ZeroDerivative) <==>
            exists k :: 0 <= k < maxIter && Running(f, df, x0, tol, k) && StalledAt(f, df, x0, k)
  {
    var m: nat := if maxIter > 0 then maxIter else 0;
    NewtonFromExits(f, df, x0, tol, m);
    if exists k :: 0 <= k < maxIter && Running(f, df, x0, tol, k) && StalledAt(f, df, x0, k) {
      var k :| 0 <= k < maxIter && Running(f, df, x0, tol, k) && StalledAt(f, df, x0, k);
      NewtonResumes(f, df, x0, tol, m, k);
    }
  }

  /** The iteration-limit error is raised exactly when max_iter <= 0 or all
      max_iter iterations moved by at least tol; it is never a value. */
  lemma NewtonMaxIterIff(f: real -> real, df: real -> real, x0: real, tol: real, maxIter: int)
    ensures Newton(f, df, x0, tol, maxIter) == Err(MaxIterExceeded) <==>
            maxIter <= 0 || Running(f, df, x0, tol, maxIter)
  {
    var m: nat := if maxIter > 0 then maxIter else 0;
    NewtonFromExits(f, df, x0, tol, m);
    if maxIter > 0 && Running(f, df, x0, tol, maxIter) {
      NewtonResumes(f, df, x0, tol, m, m);
    }
  }

  /** An exact root reached by the iteration is returned unchanged on that
      iteration when tol > 0: the update does not move it. */
  lemma NewtonReturnsExactRoot(f: real -> real, df: real -> real, x0: real, tol: real, maxIter: int, k: nat, x: real)
    requires k < maxIter && Running(f, df, x0, tol, k)
    requires Iterate(f, df, x0, k) == Some(x) && f(x) == 0.0 && df(x) != 0.0 && tol > 0.0
    ensures Newton(f, df, x0, tol, maxIter) == Ok(x)
  {
    assert ConvergesAt(f, df, x0, tol, k, x);
    NewtonOkIff(f, df, x0, tol, maxIter, x);
  }

  /** g(y) = y - 2 with g' = 1 from 0: the first iteration moves from 0 to the
      root 2, too far to stop; the second leaves 2 in place and returns it. So a
      single allowed iteration ends in the iteration-limit error. */
  lemma LinearRootOnSecondIteration()
    ensures Newton(y => y - 2.0, y => 1.0, 0.0, 0.000001, 1) == Err(MaxIterExceeded)
    ensures Newton(y => y - 2.0, y => 1.0, 0.0, 0.000001, 2) == Ok(2.0)
    ensures Newton(y => y - 2.0, y => 1.0, 0.0, 0.000001, 100) == Ok(2.0)
  {
  }

  /** g(y) = y^3 - 2y + 2 from 0 alternates 0, 1, 0, 1, ...: five iterations
      exhaust the limit. */
  lemma OscillationExhaustsLimit()
    ensures var g := (y: real) => y * y * y - 2.0 * y + 2.0;
            var dg := (y: real) => 3.0 * y * y - 2.0;
            Iterate(g, dg, 0.0, 1) == Some(1.0) && Iterate(g, dg, 0.0, 2) == Some(0.0)
            && Newton(g, dg, 0.0, 0.000001, 5) == Err(MaxIterExceeded)
  {
  }
}
