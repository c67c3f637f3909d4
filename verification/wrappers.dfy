/** Optional values and results, the shapes JavaScript expresses with
    `undefined` and with thrown errors. */
module Wrappers {

  /** A value that may be missing; `None` plays the part of `undefined`. */
  datatype Option<+T> = None | Some(value: T)

  /** The outcome of a step that can throw: `Failure` carries the error message. */
  datatype Result<+R, +E> = Success(value: R) | Failure(error: E)
}
