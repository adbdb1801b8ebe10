/** Failure-carrying results for the operations that can throw. */
module Wrappers {

  datatype Result<+T, +E> = Success(value: T) | Failure(error: E)
}
