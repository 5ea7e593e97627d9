/** Wrappers used by the parsers and evaluators. */
module Wrappers {

  /** A value that may be absent; the model's stand-in for the NaN "undefined" sentinel. */
  datatype Option<+T> = None | Some(value: T)

  /** The outcome of an operation that can throw: a value or the exception it raised. */
  datatype Result<+R, +E> = Success(value: R) | Failure(error: E)

  /** An IEEE double as far as the parsers care: a finite value, or one of the non-finite
      values (infinities and NaN) that `double.IsFinite` rejects. */
  datatype Num = Finite(r: real) | NonFinite
}
