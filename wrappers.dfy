/** Option and Outcome, the two failure-carrying shapes the model needs. */
module Wrappers {

  /** Rust's `Option<T>`. */
  datatype Option<+T> = None | Some(value: T) {

    /** `Option::unwrap_or`: the value held, or the given default. */
    function UnwrapOr(default: T): T {
      match this
      case Some(v) => v
      case None => default
    }
  }

  /** A `Result<(), E>`: either success or the error that ended the operation. */
  datatype Outcome<+E> = Ok | Err(error: E)
}
