/** Failure-compatible results, and the exceptions the modelled C# code can raise. */
module Wrappers {

  /** A value that may be absent: `None` stands for a C# `null` reference. */
  datatype Option<+T> = None | Some(value: T)

  /** Either a computed value or the exception that replaced it. */
  datatype Result<+R, +E> = Success(value: R) | Failure(error: E)

  /** The .NET exceptions raised by the modelled code. */
  datatype Exception =
    | ArgumentNullException(paramName: string)
    | NotImplementedException
}
