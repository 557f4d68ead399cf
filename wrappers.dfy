/** Results that may be absent, and the Python errors the modelled code can raise. */
module Wrappers {
  datatype Option<+T> = None | Some(value: T)

  datatype Result<+T, +E> = Ok(value: T) | Err(error: E)

  /** The exceptions the source raises on the paths the model follows. */
  datatype Exception = IndexError | KeyError | TypeError | ZeroDivisionError
}
