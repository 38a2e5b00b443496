/** Option and Result, the shapes the model uses for Python's None and for raised exceptions. */
module Wrappers {

  datatype Option<+T> = None | Some(value: T) {
    /** The wrapped value, or `default` when there is none. */
    function GetOr(default: T): T {
      match this
      case Some(v) => v
      case None => default
    }
  }

  /** `Failure(msg)` stands for an exception whose `str(e)` is `msg`. */
  datatype Result<+R> = Success(value: R) | Failure(error: string)
}
