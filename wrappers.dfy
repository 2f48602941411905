/** Option and Result, and the exceptions the payment client can raise. */
module Wrappers {

  /** A value that may be absent; `None` stands for a .NET `null`. */
  datatype Option<+T> = None | Some(value: T) {
    function GetOr(default: T): (v: T) {
      match this
      case Some(v) => v
      case None => default
    }
  }

  /** The outcome of an operation that may throw. */
  datatype Result<+R, +E> = Success(value: R) | Failure(error: E)

  /** The exceptions the modelled code can raise. */
  datatype Error =
    | DuplicateKey  // ArgumentException from SortedList.Add on a key already present
    | NullArgument  // ArgumentNullException from Encoding.UTF8.GetBytes on a null secret
    | BadFormat     // FormatException from Convert.ToInt64
    | Overflow      // OverflowException from Convert.ToInt64
}
