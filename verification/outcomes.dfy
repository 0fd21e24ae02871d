/** Failure values standing in for the exceptions the core raises or lets
    through. A Python exception carries a message; that is all the model
    keeps of it. */
module Outcomes {

  /** A computation that either produced a value or raised. */
  datatype Result<+T> = Success(value: T) | Failure(error: string)

  /** A step run only for its effect, which either returned or raised. */
  datatype Outcome = Pass | Raised(error: string)
}
