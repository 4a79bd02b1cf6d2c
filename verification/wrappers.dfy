/** Option and Result: the JavaScript `null`/`undefined` and thrown exceptions of the pipeline, as values. */
module Wrappers {

  datatype Option<+T> = None | Some(value: T) {
    /** `x ?? d` and, for values whose only falsy form is absence, `x || d`. */
    function GetOr(default: T): T {
      match this
      case Some(v) => v
      case None => default
    }
  }

  datatype Result<+R, +E> = Success(value: R) | Failure(error: E)
}
