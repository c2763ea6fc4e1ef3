/** Failure-carrying datatypes shared by both pipelines. */
module Wrappers {

  /** A value that may be absent: a parse that failed, a key that is missing. */
  datatype Option<+T> = None | Some(value: T)

  /** The outcome of an operation that Python would abort with an exception. */
  datatype Result<+R, +E> = Success(value: R) | Failure(error: E)

  /** The exception the model keeps: a true division whose divisor is
      zero. */
  datatype Error = ZeroDivisionError
}
