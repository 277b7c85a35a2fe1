/** Option and Result, used for the C code's NULL returns and its exit paths. */
module Wrappers {

  datatype Option<+T> = None | Some(value: T)

  /** `Failure` carries the status the C program passes to `exit`. */
  datatype Result<+R> = Success(value: R) | Failure(status: int)
}
