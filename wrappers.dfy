/** The error-carrying result type that replaces the exceptions and
    process exits of the original program. */
module Wrappers {

  datatype Result<+T, +E> = Success(value: T) | Failure(error: E)

}
