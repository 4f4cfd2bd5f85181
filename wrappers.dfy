/** Optional values and success-or-error results, standing in for JavaScript's
    `null`/`undefined` and for thrown errors. */
module Wrappers {

  datatype Option<+T> = None | Some(value: T)

  /** `Failure` carries the message of the error the source throws. */
  datatype Result<+R> = Success(value: R) | Failure(error: string)
}
