/** Option and Result, the two failure-carrying shapes the model uses in
    place of Python's `None` and raised exceptions. */
module Wrappers {

  /** A value that may be absent: Python's `T | None`. */
  datatype Option<+T> = None | Some(value: T) {

    /** Returns the value, or `default` when absent. */
    function GetOr(default: T): T {
      match this
      case Some(v) => v
      case None => default
    }
  }

  /** Either a value or the error a Python function would have raised. */
  datatype Result<+R, +E> = Ok(value: R) | Err(error: E)
}
