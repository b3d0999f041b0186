/** Plain option and result types shared by the store and the handlers. */
module Wrappers {

  datatype Option<+T> = None | Some(value: T)

  /** A value or the error the Go code would return beside it. */
  datatype Result<+R, +E> = Success(value: R) | Failure(error: E)

  /** The outcome of a call that returns only an `error` in Go. */
  datatype Outcome<+E> = Pass | Fail(error: E)
}
