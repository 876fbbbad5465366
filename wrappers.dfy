/** Optional values (a null shared pointer is None) and results (an exception is Failure). */
module Wrappers {

  datatype Option<+T> = None | Some(value: T)

  datatype Result<+R, +E> = Success(value: R) | Failure(error: E)
}
