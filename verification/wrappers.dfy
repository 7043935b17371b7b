/** Option and Result datatypes: the model's stand-in for JavaScript's `NaN`
    results and thrown errors. */
module Wrappers {

  datatype Option<+T> = None | Some(value: T)

  datatype Result<+R, +E> = Success(value: R) | Failure(error: E)
}
