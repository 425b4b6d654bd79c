/** Option and Result, the failure-carrying values used for JavaScript's `null`
    and for the exceptions and error replies of the modelled code. */
module Wrappers {

  datatype Option<+T> = None | Some(value: T)

  datatype Result<+T, +E> = Success(value: T) | Failure(error: E)
}
