/** Failure-carrying datatypes used by the decoder and the translator. */
module Wrappers {

  /** An optional value; `None` plays the role of Go's `nil` error. */
  datatype Option<+T> = None | Some(value: T)

  /** Either a value or the reason there is none. */
  datatype Result<+R, +E> = Success(value: R) | Failure(error: E)
}
