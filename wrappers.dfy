/** Option for Python's `None`-or-value, and the outcome of a call that may raise. */
module Wrappers {

  datatype Option<+T> = None | Some(value: T)

  /** The Python exceptions the modelled code can raise. */
  datatype Exception =
    | IndexError  // random.choice on an empty list
    | ValueError  // max() / min() on an empty sequence
    | KeyError    // indexing a dict with a missing key

  /** Either the value a call returns or the exception it raises. */
  datatype Result<+T> = Ok(value: T) | Raised(error: Exception)
}
