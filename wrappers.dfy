/** Result types shared by the modules of this model.
    Python raises exceptions; here an operation that may raise returns a
    `Result` whose `Err` case names the exception. */
module Wrappers {

  /** The Python exceptions the modelled code can raise. */
  datatype Exception = ZeroDivisionError | IndexError | StopIteration

  /** Python's `None` or a proper value. */
  datatype Option<+T> = None | Some(value: T)

  /** A value, or the exception raised while computing it. */
  datatype Result<+T> = Ok(value: T) | Err(error: Exception)
}
