/** Failure-carrying datatypes shared by the whole model. */
module Wrappers {

  /** A value that may be absent: JavaScript's `null`/`undefined` next to a present value. */
  datatype Option<+T> = None | Some(value: T) {

    /** The present value, or `default` when absent. */
    function GetOr(default: T): (r: T)
      ensures Some? ==> r == value
      ensures None? ==> r == default
    {
      match this
      case Some(v) => v
      case None => default
    }
  }

  /** The outcome of a step that can throw. */
  datatype Result<+T, +E> = Ok(value: T) | Err(error: E)
}
