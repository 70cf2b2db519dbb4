/** Failure-carrying values shared by every module: Go's `(value, error)`
    pairs become a `Result`, a bare `error` return becomes an `Outcome`. */
module Wrappers {

  datatype Option<+T> = None | Some(value: T)

  /** A value, or the text of the Go error that replaced it. */
  datatype Result<+T> = Ok(value: T) | Err(msg: string)

  /** The outcome of a call that returns only an `error`. */
  datatype Outcome = Pass | Fail(msg: string)
}
