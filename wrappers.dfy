/** Option and Result, used for the script's regex searches that may find
    nothing and for its exits on error. */
module Wrappers {

  datatype Option<+T> = None | Some(value: T)

  datatype Result<+T, +E> = Success(value: T) | Failure(error: E)
}
