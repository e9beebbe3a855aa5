/** The `Option` and `Result` wrappers shared by every module of the model. */
module Wrappers {

  /** `None` stands for JavaScript's `undefined` (or `null` where noted). */
  datatype Option<+T> = None | Some(value: T) {

    /** The carried value, or `default` when there is none. */
    function GetOr(default: T): T {
      match this
      case Some(v) => v
      case None => default
    }
  }

  /** The outcome of an operation that may throw. */
  datatype Result<+R, +E> = Success(value: R) | Failure(error: E)
}
