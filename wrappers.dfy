/** Option and Result values, used wherever the Go code returns `(T, error)`,
    `(T, bool)` or a bare `error`. */
module Wrappers {

  datatype Option<+T> = None | Some(value: T)

  /** A value or an error; `E` describes which check failed. */
  datatype Result<+T, +E> = Ok(value: T) | Err(error: E)

  /** A bare Go `error` result: nil (Pass) or an error (Fail). */
  datatype Outcome<+E> = Pass | Fail(error: E)
}
