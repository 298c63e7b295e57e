/** Option and Result values for the "no value" and error paths of the model. */
module Wrappers {

  /** An optional value; `None` stands for PHP's `null`. */
  datatype Option<+T> = None | Some(value: T)

  /** The outcome of an operation that can fail. */
  datatype Result<+T, +E> = Success(value: T) | Failure(error: E)
}
