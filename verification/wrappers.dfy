/** Optional values and results with an error, used where the program passes a
    nullable pointer or rejects its configuration. */
module Wrappers {

  /** A value that may be absent (a null pointer in the program). */
  datatype Option<+T> = None | Some(value: T)

  /** The outcome of an operation that can be refused with an error. */
  datatype Result<+R, +E> = Success(value: R) | Failure(error: E)
}
