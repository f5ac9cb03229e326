/** Option and Result, as the rest of the model uses them for Python's `None`
    returns and for error returns. */
module Wrappers {
  datatype Option<+T> = None | Some(value: T)

  datatype Result<+T, +E> = Ok(value: T) | Err(error: E)
}
