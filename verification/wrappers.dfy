/** Option and Result datatypes used throughout the model.
    - Option<T>: `None` stands for a C# `null` reference, `Some(v)` for a non-null one.
    - Result<R, E>: the value of an expression that either completes or throws `E`.
 */
module Wrappers {

  datatype Option<+T> = None | Some(value: T)

  datatype Result<+R, +E> = Success(value: R) | Failure(error: E)
}
