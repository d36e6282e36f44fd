/** Option and Result carriers, and the exceptions the collectors can raise. */
module Wrappers {

  /** An absent value (Java's null or an empty Optional) or a present one. */
  datatype Option<+T> = None | Some(value: T)

  /** The outcome of an operation that either succeeds or raises an exception. */
  datatype Result<+R> = Success(value: R) | Failure(error: Error)

  /** The Java exceptions raised by the collectors of this model. */
  datatype Error =
    | IllegalState(message: string)
    | IllegalArgument(message: string)
    | NullPointer(message: string)
}
