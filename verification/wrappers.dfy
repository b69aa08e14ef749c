/** An optional value (Swift's `T?`) and a success-or-error outcome
    (Swift's `Result`). */
module Wrappers {

  datatype Option<+T> = None | Some(value: T)

  datatype Result<+R, +E> = Success(value: R) | Failure(error: E)
}
