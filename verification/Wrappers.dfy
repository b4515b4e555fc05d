/** Values that may be missing, and results that may be refused. */
module Wrappers {

  datatype Option<+T> = None | Some(value: T)

  /** A value, or the RangeError a guard throws. */
  datatype Result<+T> = Ok(value: T) | RangeError {
    predicate IsFailure() { RangeError? }
    function PropagateFailure<U>(): Result<U> requires RangeError? { RangeError }
    function Extract(): T requires Ok? { value }
  }
}
