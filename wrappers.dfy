/** Option and Outcome values used for the ledger's nullable columns and for the
    exceptions its operations raise. */
module Wrappers {

  datatype Option<+T> = None | Some(value: T)

  /** The result of an operation that changes state and either completes or raises. */
  datatype Outcome<+E> = Pass | Fail(error: E)

  datatype Result<+R, +E> = Success(value: R) | Failure(error: E)
}
