/** Option and Result: the model's way of returning "nothing" (a JavaScript
    `null`, a Python `None`) and an exception (a Python `ValueError`). */
module Wrappers {

  datatype Option<+T> = None | Some(value: T)

  datatype Result<+T, +E> = Success(value: T) | Failure(error: E)
}
