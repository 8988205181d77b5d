/** Option and Result, the two failure-carrying datatypes the model uses. */
module Wrappers {

  datatype Option<+T> = None | Some(value: T)

  /** The outcome of an operation that either yields a value or raises an
      exception, carried as the exception's message (`str(e)` in Python). */
  datatype Result<+R> = Success(value: R) | Failure(error: string)
}
