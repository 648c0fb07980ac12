/** Option and Result values standing in for Go's `(value, error)` returns. */
module Wrappers {

  /** `Some(v)` for a present value, `None` for a missing one (a nil error is `None`). */
  datatype Option<+T> = None | Some(value: T)

  /** `Ok(v)` for a successful call, `Err(e)` for a call that returned a non-nil error. */
  datatype Result<+T, +E> = Ok(value: T) | Err(error: E)
}
