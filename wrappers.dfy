/** Option and Result types standing for the source's nullable references and thrown exceptions. */
module Wrappers {

  /** A value or its absence (a C# `null`). */
  datatype Option<+T> = None | Some(value: T)

  /** The errors the modelled code reports by throwing. */
  datatype Error =
    | ArgumentNull          // ArgumentNullException
    | Argument              // ArgumentException
    | ArgumentOutOfRange    // ArgumentOutOfRangeException
    | InvalidOperation      // InvalidOperationException

  /** Either a value or the exception the source would throw. */
  datatype Result<+T> = Ok(value: T) | Err(error: Error)
}
