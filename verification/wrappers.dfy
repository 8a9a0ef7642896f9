/** Option and Result, the two shapes every partial or failing operation of
    the model returns instead of JavaScript's `null`/`undefined` and thrown
    errors. */
module Wrappers {

  /** `None` stands for the source's `null`/`undefined`. */
  datatype Option<+T> = None | Some(value: T) {

    /** Returns the wrapped value, or `default` when there is none. */
    function GetOr(default: T): T {
      match this
      case Some(v) => v
      case None => default
    }
  }

  /** `Err` stands for a thrown (or rejected) error. */
  datatype Result<+T, +E> = Ok(value: T) | Err(error: E)
}
