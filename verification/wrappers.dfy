/** Optional values and results with an error, used across the model:
    `Option` for the source's `T | undefined` returns and `Result` for
    operations that either return a value or raise an error. */
module Wrappers {

  /** A value that may be absent (`undefined` in the source). */
  datatype Option<+T> = None | Some(value: T)

  /** Either a value or an error (a thrown exception in the source). */
  datatype Result<+R, +E> = Success(value: R) | Failure(error: E)
}
