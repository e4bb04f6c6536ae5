/** Option and Result, the failure-carrying datatypes the model uses for
    absent configuration options and for the thrown TypeError. */
module Wrappers {

  /** An optional value: `None` stands for a JavaScript `undefined` option. */
  datatype Option<+T> = None | Some(value: T) {

    /** The value, or `default` when absent (a destructuring default). */
    function GetOr(default: T): (r: T)
      ensures Some? ==> r == value
      ensures None? ==> r == default
    {
      match this
      case Some(v) => v
      case None => default
    }
  }

  /** Either a result or the error the call raised instead. */
  datatype Result<+R, +E> = Success(value: R) | Failure(error: E)
}
