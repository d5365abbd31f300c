/** Option and Result datatypes used throughout the model for JavaScript's
    `null`/`undefined` values and for thrown errors. */
module Wrappers {

  /** A value that may be absent (`null` or `undefined` in the source). */
  datatype Option<+T> = None | Some(value: T) {

    /** Returns the wrapped value, or `default` when absent. */
    function GetOr(default: T): T {
      match this
      case Some(v) => v
      case None => default
    }
  }

  /** The outcome of an operation that may throw: a value, or the
      message of the thrown `Error`. */
  datatype Result<+R> = Ok(value: R) | Err(message: string)
}
