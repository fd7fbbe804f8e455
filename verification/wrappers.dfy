/** Option and Result datatypes used throughout the model. Python's `None`
    becomes `None`, and a raised exception becomes `Failure`. */
module Wrappers {

  datatype Option<+T> = None | Some(value: T)

  datatype Result<+R, +E> = Success(value: R) | Failure(error: E)
}
