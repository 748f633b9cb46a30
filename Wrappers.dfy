/** Failure-compatible wrappers used to model the source's error paths
    (a missing dictionary key, an exception, a failed assertion). */
module Wrappers {

  datatype Option<+T> = None | Some(value: T)

  datatype Result<+T> = Success(value: T) | Failure(reason: string)
}
