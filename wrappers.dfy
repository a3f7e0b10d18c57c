/** Failure-carrying values shared by the model of fishbuilder.py. */
module Wrappers {

  /** An optional value; `None` is Python's `None`. */
  datatype Option<+T> = None | Some(value: T)

  /** The Python exceptions that the modelled code can raise. */
  datatype PyError =
    | IndexError   // a list subscript out of range
    | ValueError   // `int('')`, or `max` of an empty sequence

  /** Either a value or the exception that the Python code raises instead. */
  datatype Result<+T> = Ok(value: T) | Err(error: PyError)
}
