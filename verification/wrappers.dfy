/** Optional values and failure-carrying results, used wherever the source
    has `null`/`undefined` or throws. */
module Wrappers {

  datatype Option<+T> = None | Some(value: T) {
    /** `x ?? fallback`: the value when present, otherwise the fallback. */
    function OrElse(fallback: Option<T>): Option<T> {
      if Some? then this else fallback
    }

    function GetOr(default: T): T {
      if Some? then value else default
    }
  }

  datatype Result<+R, +E> = Success(value: R) | Failure(error: E)

  /** A step that either passes or fails with an error, like a `throw` guard. */
  datatype Outcome<+E> = Pass | Fail(error: E)
}
