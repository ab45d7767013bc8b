/** Result types standing in for Go's `(T, error)` and `error` returns. */
module Wrappers {

  datatype Option<+T> = None | Some(value: T)

  /** A value or the text of a Go `error`. */
  datatype Result<+T> = Ok(value: T) | Err(error: string)

  /** A Go function that returns only an `error`: nil (Pass) or an error (Fail). */
  datatype Outcome = Pass | Fail(error: string)
}
