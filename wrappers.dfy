/** Option and Result: the absent value (Python None) and the error path
    (a raised exception) of the modelled functions. */
module Wrappers {

  datatype Option<+T> = None | Some(value: T)

  datatype Result<+T, +E> = Success(value: T) | Failure(error: E)
}
