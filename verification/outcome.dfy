/** What a call returns when it may raise: the value, or the Python
    exception that ends the call. */
module Outcome {

  /** The exceptions the modelled code can raise on well-formed input. */
  datatype PyError =
    | TypeError   // hashing an unhashable value (a list)
    | KeyError    // reading a dict entry that is no longer there

  datatype Result<T> = Ok(value: T) | Raised(error: PyError)

  /** An optional argument: `None` when the caller leaves it out. */
  datatype Option<T> = None | Some(value: T)
}
