/** Optional values and results with an error, used wherever the source returns
    `null`/`undefined` or throws. */
module Wrappers {

  datatype Option<+T> = None | Some(value: T) {
    /** `v || fallback`. */
    function GetOr(fallback: T): T
    {
      if Some? then value else fallback
    }
  }

  datatype Result<+T, +E> = Success(value: T) | Failure(error: E)
}
