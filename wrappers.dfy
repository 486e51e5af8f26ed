/** Optional values and results shared by the modules of this model. */
module Wrappers {

  /** A JavaScript value that may be `null`/`undefined` (None) or present (Some). */
  datatype Option<T> = None | Some(value: T)

  /** The outcome of an operation that can fail; `Failure` stands for an exception. */
  datatype Result<T, E> = Success(value: T) | Failure(error: E)
}
