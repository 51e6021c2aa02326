/** Failure-carrying datatypes shared by both engines. */
module Wrappers {

  /** Python's `None` or a present value. */
  datatype Option<+T> = None | Some(value: T)

  /** The exceptions the engines can raise, as plain values. */
  datatype Error =
    | MissingKey    // a dictionary lookup with an absent key (KeyError)
    | MissingValue  // `list.remove` of a value the list does not hold (ValueError)

  /** The normal result of an operation or the exception it raised. */
  datatype Result<+R> = Success(value: R) | Failure(error: Error)
}
