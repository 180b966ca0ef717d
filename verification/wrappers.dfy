/** Failure-carrying datatypes shared by the model: `Option` for Swift
    optionals and `Result` for operations that throw. */
module Wrappers {

  /** A Swift optional: `nil` is `None`. */
  datatype Option<+T> = None | Some(value: T) {

    /** The wrapped value, or `default` when `None` (Swift's `??`). */
    function GetOr(default: T): T {
      match this
      case Some(v) => v
      case None => default
    }
  }

  /** The outcome of a Swift function declared `throws`. */
  datatype Result<+R, +E> = Success(value: R) | Failure(error: E)
}
