/** The optional value and the outcome of an operation that can fail, used
    throughout the model: the source's `null` becomes `None`, and an
    exception it throws becomes `Failure`. */
module Wrappers {

  datatype Option<+T> = None | Some(value: T)

  datatype Result<+T, +E> = Success(value: T) | Failure(error: E)
}
