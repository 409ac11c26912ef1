/** The two result shapes the repository code works with: a Python value
    that may be `None`, and a handler outcome that is a reply or an error. */
module Wrappers {

  datatype Option<T> = None | Some(value: T) {

    /** `x if x is not None else fallback`, as `dict.get(k, fallback)` reads. */
    function ValueOr(fallback: T): T {
      if Some? then value else fallback
    }
  }

  datatype Result<R, E> = Success(value: R) | Failure(error: E)
}
