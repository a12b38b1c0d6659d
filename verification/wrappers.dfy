/** Failure-carrying result types shared by every module of the model.
    A Python function that returns `None` or raises is modelled with these
    instead of a precondition that rules the failing input out. */
module Wrappers {

  /** Python's `None` or a value. */
  datatype Option<+T> = None | Some(value: T) {

    /** The value, or `default` for `None` (Python's `x if x is not None else default`). */
    function GetOr(default: T): T {
      match this
      case Some(v) => v
      case None => default
    }
  }

  /** A normal return or a raised exception with its message. */
  datatype Result<+R> = Ok(value: R) | Raised(message: string)
}
