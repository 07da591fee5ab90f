/** The outcome of an operation that may abort the request. */
module Wrappers {

  datatype Result<+T, +E> = Success(value: T) | Failure(error: E)
}
