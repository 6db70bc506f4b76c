/** Optional values and success/failure results, used wherever the original
    program has a nullable value or an assertion that can fail. */
module Wrappers {

  /** A value that may be absent (JavaScript `null` / `undefined`). */
  datatype Option<+T> = None | Some(value: T)

  /** The outcome of an operation that either yields a value or fails with
      an error (an assertion failure or a thrown exception). */
  datatype Result<+R, +E> = Success(value: R) | Failure(error: E)
}
