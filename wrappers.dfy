/** The two failure-carrying datatypes the model uses for Python's `None` and
    for raised exceptions. */
module Wrappers {

  datatype Option<T> = None | Some(value: T) {
    /** Python's `x if x is not None else default`. */
    function GetOr(default: T): T {
      match this
      case Some(v) => v
      case None => default
    }
  }

  datatype Result<T, E> = Ok(value: T) | Err(error: E)
}
