/** Failure-compatible wrappers: Option for "maybe absent", Result for
    "value or error". */
module Wrappers {

  datatype Option<+T> = None | Some(value: T)

  datatype Result<+R, +E> = Success(value: R) | Failure(error: E)
}
