/** Failure-carrying result types shared by the ledger service and the on-chain program. */
module Wrappers {

  datatype Option<+T> = None | Some(value: T)

  /** A value or the error that stopped the operation producing it. */
  datatype Result<+T, +E> = Ok(value: T) | Err(error: E)

  /** Success without a value, or the error that stopped the operation. */
  datatype Outcome<+E> = Pass | Fail(error: E)
}
