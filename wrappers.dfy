/** Optional values and error-or-value results shared by the other modules. */
module Wrappers {

  /** A value that may be absent; `None` stands for Python's `None` or a missing dict key. */
  datatype Option<+T> = None | Some(value: T)

  /** Either a value or the reason it could not be produced. */
  datatype Result<+R, +E> = Success(value: R) | Failure(error: E)
}
