/** Optional values and the outcome of a call that may raise. */
module Wrappers {

  /** Python's `Optional[T]`: `None` or a present value. */
  datatype Option<+T> = None | Some(value: T) {

    /** The value, or `default` when absent. */
    function GetOr(default: T): T {
      match this
      case Some(v) => v
      case None => default
    }
  }

  /** The result of a call that either returns a value or raises an exception
      carrying a message (`str(e)`). */
  datatype Outcome<+T> = Ok(value: T) | Raised(error: string)
}
