/** An optional value (Python's `None`-or-value returns) and a success/failure
    result (a value, or the exception that a call raised). */
module Wrappers {

  datatype Option<+T> = None | Some(value: T)

  datatype Result<+R, +E> = Success(value: R) | Failure(error: E)
}
