/** Optional values and results that may carry an error, shared by every
    module of the model. */
module Wrappers {

  /** A value that may be missing (NaN, None or an empty slot in the
      original arrays). */
  datatype Option<T> = None | Some(value: T)

  /** The outcome of an operation that may abort with an error. */
  datatype Result<T, E> = Success(value: T) | Failure(error: E)
}
