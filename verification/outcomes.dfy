/** Outcomes shared by the root finder and the steppers: the two exceptions that
    newton_raphson raises and the ZeroDivisionError of a forward difference become
    values of a result datatype. */
module Outcomes {

  /** Why a computation failed.
      - ZeroDerivative: the root finder met a derivative that is exactly zero
        (newton_raphson raises ZeroDivisionError("Zero derivative...")).
      - MaxIterExceeded: the root finder used up its iterations
        (newton_raphson raises RuntimeError).
      - DivisionByZero: a forward difference was asked for with a zero step
        (Python's own ZeroDivisionError on `/ h`). */
  datatype Error = ZeroDerivative | MaxIterExceeded | DivisionByZero

  /** A value, or the error that was raised instead of it. */
  datatype Result<+T> = Ok(value: T) | Err(error: Error)

  /** An optional value. */
  datatype Option<+T> = None | Some(value: T)
}
