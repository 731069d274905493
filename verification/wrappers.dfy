/** Option and Result datatypes used by the model. */
module Wrappers {

  /** A value that may be absent; in the registry, None stands for PHP null. */
  datatype Option<+T> = None | Some(value: T)

  /** The outcome of an operation that may throw: a value or the exception it raises. */
  datatype Result<+R, +E> = Success(value: R) | Failure(error: E)
}
