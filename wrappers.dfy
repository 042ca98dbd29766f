/** The optional-value type the model uses for a match that may fail and for
    a computation that may run out of its recursion budget, and the result
    type for an operation that may raise. */
module Wrappers {

  datatype Option<+T> = None | Some(value: T)

  datatype Result<+T, +E> = Ok(value: T) | Err(error: E)
}
