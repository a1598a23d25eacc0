/** Option and Result: absent values and failed operations as data. */
module Wrappers {

  datatype Option<+T> = None | Some(value: T) {
    /** The wrapped value, or `default` when there is none. */
    function GetOr(default: T): T {
      match this
      case Some(v) => v
      case None => default
    }
  }

  /** The outcome of an operation that can fail (a rejected promise, a thrown error). */
  datatype Result<+T> = Ok(value: T) | Err(message: string)
}
