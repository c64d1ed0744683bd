/** Optional values and results with an error message, standing in for the
    source's `undefined`/`null` returns and thrown exceptions. */
module Wrappers {

  datatype Option<+T> = None | Some(value: T) {

    /** The value, or `default` when absent (the source's `x ?? default`). */
    function GetOr(default: T): T {
      match this
      case Some(v) => v
      case None => default
    }
  }

  /** `Failure` carries the message an exception would have carried. */
  datatype Result<+R> = Success(value: R) | Failure(message: string)
}
