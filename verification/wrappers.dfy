/** An optional value and a value-or-fault result. */
module Wrappers {

  /** A value that may be missing; stands in for a C# null reference. */
  datatype Option<+T> = None | Some(value: T)

  /** Either a computed value or the fault that stopped the computation. */
  datatype Result<+R, +E> = Success(value: R) | Failure(error: E)
}
