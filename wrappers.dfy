/** Failure-carrying values: Go's `nil`-or-value returns and `(value, error)` pairs. */
module Wrappers {

  /** A value that may be absent (a nil pointer or a nil slice in the source). */
  datatype Option<+T> = None | Some(value: T)

  /** A value or the error that replaced it. */
  datatype Result<+R, +E> = Success(value: R) | Failure(error: E)

  /** Success without a value, or an error (a Go call that returns only `error`). */
  datatype Outcome<+E> = Pass | Fail(error: E)
}
