# Newton-Raphson and Euler steppers of numerical_methods, in Dafny

This project models the algorithmic core of a small Python toolkit for
first-order ODEs: the Newton-Raphson root finder `newton_raphson`, the
recursive trajectory builders `euler_explicit` and `euler_implicit`, and the
forward difference quotient `forward_difference` that both steppers use.
Everything is over exact `real`; the user's functions `f` and `df` are opaque
`real -> real` values, and the implicit stepper's `solver` is a function value
`(real -> real, real -> real, real) -> Result<real>`.

Modules:

- `Outcomes` (outcomes.dfy): `Error` = `ZeroDerivative | MaxIterExceeded |
  DivisionByZero` and `Result<T>` = `Ok(value) | Err(error)`. The two
  exceptions of `newton_raphson` and Python's own `ZeroDivisionError` on a zero
  divisor become error values.
- `Differences` (forward_difference.dfy): `ForwardDifference(f, x, h)`.
- `RootFinder` (newton_raphson.dfy): the method `NewtonRaphson`, a `while`
  loop over `n_iter` that updates the local iterate `x`, proved equal to the
  function `Newton`/`NewtonFrom`. `Iterate(f, df, x0, k)` is the k-th iterate
  (None once a zero derivative is met). `Moved`, `Running`, `ConvergesAt` and
  `StalledAt` say what iteration k did. Three iff lemmas characterise the three
  exits of the loop.
- `Euler` (euler.dfy): `EulerExplicit` and `EulerImplicit` as recursive
  functions over `seq<(real, real)>`. `ImplicitStep` is one step of
  `euler_implicit` (lines 53-55), and `DefaultSolver` is `newton_raphson` with
  its default `tol = 1e-6` and `max_iter = 100`.

What the code does, as modelled:

- The right-hand side `f` takes one argument. An explicit step from `y` is
  `y + h * (f(y + h) - f(y)) / h`, which over the reals is `y + f(y + h) - f(y)`.
- An implicit step from `(t0, y0)` first predicts `y0 + f(y0 + h) - f(y0)` with
  a one-step explicit run. It then calls `solver(f, df, prediction)` on `f` and
  `df` themselves (no residual `y - h f(t+h, y) - y_prev` is built), giving
  `ye`. With `t = t0 + h`, it then sets `y = y0 + h * (f(ye + t) - f(ye)) / t`.
- A failure in any step makes the whole `euler_implicit` call fail with that
  error. No partial trajectory is returned. Python's exception carries no step
  index, and the model follows the code.
- Division by zero: `ForwardDifference` requires `h != 0`.
  `EulerExplicit` requires `s < 1 || h != 0` (with `s < 1` it returns `[]`
  without dividing). Inside `euler_implicit` both divisions can fail on data
  (by `h` in the prediction, by `t0 + h` in the correction). Both are modelled
  as `Err(DivisionByZero)`, in the order the code performs them.

## Model

| member | source | states |
|---|---|---|
| `Differences.ForwardDifference` | numerical_methods/forward_diference.py:10-19 | for a nonzero step, the result d is the quotient with h * d == f(x + h) - f(x); a zero step is excluded because Python raises |
| `Differences.DifferenceDependsOnlyOnSamples` | numerical_methods/forward_diference.py:19 | f is sampled only at x and x + h: functions agreeing there have equal differences |
| `Differences.ConstantHasZeroDifference` | numerical_methods/forward_diference.py:19 | a constant f has forward difference 0 at any x and nonzero h |
| `Differences.AffineDifferenceIsSlope` | numerical_methods/forward_diference.py:19 | for f(u) = a*u + b the forward difference is exactly a at any x and nonzero h |
| `RootFinder.NewtonRaphson` | numerical_methods/newton_raphson.py:10-31 | the loop's result is the specification Newton(f, df, x0, tol, max_iter); max_iter <= 0 gives the iteration-limit error; df(x0) == 0 with max_iter >= 1 gives the zero-derivative error on the first iteration |
| `RootFinder.NewtonFrom` | numerical_methods/newton_raphson.py:22-31 | from any iterate and any number of remaining iterations, the loop fails only with the zero-derivative error (line 26) or the iteration-limit error (line 31) |
| `RootFinder.IterateNext` | numerical_methods/newton_raphson.py:27-30 | the iterates obey x_{k+1} = x_k - f(x_k)/df(x_k) whenever df(x_k) != 0, starting from x_0 = x0 |
| `RootFinder.NewtonResumes` | numerical_methods/newton_raphson.py:21-30 | while the first k iterations all moved by at least tol, the call's outcome is the outcome from iterate k with max_iter - k iterations left |
| `RootFinder.NewtonFromExits` | numerical_methods/newton_raphson.py:22-31 | every outcome comes from one exit: iteration limit only after every iteration moved, zero derivative or a value only at some iteration reached after all earlier ones moved |
| `RootFinder.NewtonOkIff` | numerical_methods/newton_raphson.py:27-29 | the call returns r iff some iteration k < max_iter, reached with all earlier ones moving by at least tol, has nonzero derivative, update r and abs(r - x_k) < tol |
| `RootFinder.NewtonZeroDerivativeIff` | numerical_methods/newton_raphson.py:23-26 | the zero-derivative error is raised iff some iteration k < max_iter, reached with all earlier ones moving, meets df(x_k) == 0 |
| `RootFinder.NewtonMaxIterIff` | numerical_methods/newton_raphson.py:22-31 | the iteration-limit error is raised iff max_iter <= 0 or all max_iter iterations moved by at least tol; it never yields a value |
| `RootFinder.NewtonReturnsExactRoot` | numerical_methods/newton_raphson.py:27-29 | an iterate x reached by the loop with f(x) == 0, df(x) != 0 and tol > 0 is returned exactly, on that iteration |
| `RootFinder.LinearRootOnSecondIteration` | numerical_methods/newton_raphson.py:21-31 | for g(y) = y - 2, g' = 1 from 0 the first iteration moves to 2 by more than tol, so max_iter = 1 ends in the iteration-limit error; the second iteration leaves 2 in place, so max_iter = 2 (and the default 100) returns 2 |
| `RootFinder.OscillationExhaustsLimit` | numerical_methods/newton_raphson.py:22-31 | for g(y) = y^3 - 2y + 2, g' = 3y^2 - 2 from 0 the first two iterates are 1 and 0 (the iteration alternates), and max_iter = 5 ends in the iteration-limit error |
| `Euler.DefaultSolver` | numerical_methods/euler.py:41 | the default `solver=newton` is newton_raphson with its own defaults tol = 1e-6 and max_iter = 100 (newton_raphson.py:10); it fails with ZeroDerivative whenever df is zero at the guess, and never with a division by zero |
| `Euler.EulerExplicit` | numerical_methods/euler.py:22-39 | s < 1 gives the empty list; otherwise exactly s samples, the k-th (from 0) at time t0 + (k + 1) * h |
| `Euler.EulerExplicitStep` | numerical_methods/euler.py:36 | each explicit sample's state is y + h * forward_difference(f, y, h) = y + f(y + h) - f(y) for the previous state y (y0 for the first) |
| `Euler.EulerExplicitPrefix` | numerical_methods/euler.py:37 | the first k samples of an s-step run are the k-step run from the same start |
| `Euler.EulerExplicitAffine` | numerical_methods/euler.py:34-37 | for an affine f(u) = a*u + b the k-th state is y0 + (k + 1) * a * h |
| `Euler.ImplicitStep` | numerical_methods/euler.py:53-55 | one step fails with DivisionByZero when h == 0, passes on the solver's error when the solver fails on the explicit prediction, fails with DivisionByZero when t0 + h == 0, and otherwise lands at time t0 + h |
| `Euler.ImplicitStepFormula` | numerical_methods/euler.py:54-55 | a step succeeds iff h != 0, t0 + h != 0 and the solver succeeds from the guess y0 + f(y0 + h) - f(y0) with some ye; then (t0 + h) * (y - y0) == h * (f(ye + t0 + h) - f(ye)) |
| `Euler.EulerImplicit` | numerical_methods/euler.py:41-58 | s < 1 gives an empty trajectory; s >= 1 with h == 0 fails; a successful run has exactly s samples, the k-th at time t0 + (k + 1) * h |
| `Euler.EulerImplicitStepAt` | numerical_methods/euler.py:53-56 | each sample of a successful run is one ImplicitStep with the same solver from the sample before it (from (t0, y0) for the first) |
| `Euler.EulerImplicitPrefix` | numerical_methods/euler.py:56 | the first k samples of a successful s-step run are the successful k-step run |
| `Euler.EulerImplicitFailsWith` | numerical_methods/euler.py:54-56 | when step k < s fails with e, the whole s-step call fails with e and returns no samples |
| `Euler.EulerImplicitFailureHasStep` | numerical_methods/euler.py:54-56 | a failed s-step call failed at some step k < s with that same error |
| `Euler.EulerImplicitErrIff` | numerical_methods/euler.py:52-58 | the s-step call fails with e iff some step k < s fails with e after k successful steps |
| `Euler.DefaultSolverZeroDerivative` | numerical_methods/euler.py:41-54 | with the default Newton solver, df == 0 at the explicit prediction makes the whole call fail with ZeroDerivative |

## Left out

- Floating-point behaviour: rounding, whether t0 + k*h is exactly representable, convergence speed and accuracy against the true ODE solution. The model is over exact reals.
- `numerical_methods/utils/equations.py` (`Expression`) builds functions by `eval` of arbitrary strings; `f` and `df` are opaque function parameters instead.
- `numerical_methods/utils/prints.py` (`print_table`) is console output and is not part of this model; neither is `Reports/report_03/euler_main.py`, a script that wires the pieces together and prints.
- The `__main__` blocks of `numerical_methods/euler.py` (lines 60-89) and `numerical_methods/newton_raphson.py` (lines 34-39) parse arguments and print.
- Differences.ForwardDifference: requires h != 0, so the ZeroDivisionError that `forward_difference` raises for a zero step (forward_diference.py:19) is excluded rather than modelled as an error value.
- Euler.EulerExplicit: requires s < 1 || h != 0, so the ZeroDivisionError that `euler_explicit` raises for h == 0 with s >= 1 (euler.py:36, through forward_diference.py:19) is excluded rather than modelled as an error value; with s < 1 it returns the empty list for any h, as the code does.
- That `newton_raphson` does not call `f` or `df` when `max_iter <= 0` is stated only as its result (the iteration-limit error, whatever `f` and `df` are): pure function values leave no trace of being called.
- Python raises `ZeroDivisionError` both for a zero derivative and for a zero divisor; the model gives them two error values, `ZeroDerivative` and `DivisionByZero`, and does not model exception messages or classes.
- Python's recursion-depth limit for large `s` is not modelled.
