/** Small failure-carrying datatypes shared by the whole model. */
module Wrappers {

  datatype Option<+T> = None | Some(value: T)

  /** A computation that either produced a value or failed with a message
      (a thrown `Error`, a rejected promise, an HTTP error body). */
  datatype Result<+T> = Success(value: T) | Failure(error: string)
}
