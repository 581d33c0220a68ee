/** Failure-carrying values: what the C# code expresses with null and with thrown exceptions. */
module Wrappers {

  /** A value or its absence (C# `null`). */
  datatype Option<+T> = None | Some(value: T)

  /** A result or the exception that was thrown instead. */
  datatype Result<+T, +E> = Success(value: T) | Failure(error: E)

  /** Normal completion of a `void` operation or the exception it threw. */
  datatype Outcome<+E> = Pass | Fail(error: E)
}
