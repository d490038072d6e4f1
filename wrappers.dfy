/** Failure-carrying datatypes shared by the model. */
module Wrappers {

  /** A value that may be absent (Python's None, or "no column matched"). */
  datatype Option<+T> = None | Some(value: T)

  /** The outcome of a Python computation that may raise an exception.
      `Raised` stands for any exception escaping the computation. */
  datatype Result<+T> = Ok(value: T) | Raised
}
