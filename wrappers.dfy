/** Option and Result, the two shapes the Rust code returns through `?`. */
module Wrappers {

  datatype Option<+T> = None | Some(value: T) {
    function GetOr(default: T): T {
      match this
      case Some(v) => v
      case None => default
    }
  }

  datatype Result<+R, +E> = Success(value: R) | Failure(error: E)

  /** The unit value a reply carries when it has no body. */
  datatype Unit = Unit
}
