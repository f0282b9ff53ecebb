/** The Option and Result wrappers used throughout the model: `Option` for values a
    record may lack, `Result` for operations that can raise in the source. */
module Wrappers {

  datatype Option<+T> = None | Some(value: T) {

    /** The wrapped value, or `default` when there is none (Python's `d.get(k, default)`). */
    function GetOr(default: T): T {
      match this
      case Some(v) => v
      case None => default
    }
  }

  /** `Failure` carries the text of the exception the source would raise. */
  datatype Result<+R, +E> = Success(value: R) | Failure(error: E) {

    function ToOption(): Option<R> {
      match this
      case Success(v) => Some(v)
      case Failure(_) => None
    }
  }
}
