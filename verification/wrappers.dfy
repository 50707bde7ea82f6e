/** Option and Result wrappers shared by the modules of this model. */
module Wrappers {

  /** A value that may be absent: Python's `None`, a SQL NULL, a pandas NaN. */
  datatype Option<+T> = None | Some(value: T)

  /** The outcome of an operation that either succeeds or raises. */
  datatype Result<+R, +E> = Success(value: R) | Failure(error: E)

  /** True when no element of `s` occurs twice. */
  predicate Distinct<T(==)>(s: seq<T>)
  {
    forall i, j :: 0 <= i < j < |s| ==> s[i] != s[j]
  }
}
