/** Optional values: a JavaScript `undefined`/`null` is `None`. */
module Wrappers {

  datatype Option<+T> = None | Some(value: T)

  /** A success value or an error value. */
  datatype Result<+R, +E> = Success(value: R) | Failure(error: E)
}
