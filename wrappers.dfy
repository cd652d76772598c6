/** Option and Result: C#'s null references and thrown exceptions, as values. */
module Wrappers {

  /** `None` stands for a C# null reference (or `FirstOrDefault` finding nothing). */
  datatype Option<+T> = None | Some(value: T) {
    /** The value, or `default` when there is none (a `TryParse` that failed
        leaves the field at its default). */
    function GetOr(default: T): T {
      match this
      case Some(v) => v
      case None => default
    }
  }

  /** The runtime exceptions the modelled code can raise. */
  datatype Error =
    | NullReference     // System.NullReferenceException
    | IndexOutOfRange   // System.IndexOutOfRangeException (indexing a split array)

  /** `Err` stands for an exception escaping the operation. */
  datatype Result<+T> = Ok(value: T) | Err(error: Error)

  /** Two's-complement ranges of C#'s `int` and `long`. */
  type Int32 = x: int | -0x8000_0000 <= x < 0x8000_0000
  type Int64 = x: int | -0x8000_0000_0000_0000 <= x < 0x8000_0000_0000_0000
}
