/** Wrappers used by the game model: an optional value
    (Python's `None` or a value) and a result that is either a value or an error. */
module Wrappers {

  /** Python's `None` or a value. */
  datatype Option<+T> = None | Some(value: T)

  /** Either a value or the error that a Python call would have raised. */
  datatype Result<+R, +E> = Success(value: R) | Failure(error: E)
}
