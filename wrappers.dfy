/** Option and Result, used for Python's `None` and for a validator that either
    returns its input or raises. */
module Wrappers {

  datatype Option<+T> = None | Some(value: T)

  datatype Result<+R, +E> = Success(value: R) | Failure(error: E)
}
