/** Option and Result datatypes shared by the configuration and command modules. */
module Wrappers {

  /** An optional value: `Option<T>` in the application's code. */
  datatype Option<+T> = None | Some(value: T)

  /** The outcome of a fallible operation: `Result<T, E>` in the application's code. */
  datatype Result<+T, +E> = Success(value: T) | Failure(error: E)
}
