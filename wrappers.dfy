/** Option and Result: the optionals and `throws` of the modelled code. */
module Wrappers {

  datatype Option<+T> = None | Some(value: T) {
    function GetOr(default: T): T {
      match this
      case Some(v) => v
      case None => default
    }
  }

  /** A throwing call: its value, or the error it throws. */
  datatype Result<+T, +E> = Success(value: T) | Failure(error: E) {
    function ErrorOf(): Option<E> {
      match this
      case Success(_) => None
      case Failure(e) => Some(e)
    }
  }
}
