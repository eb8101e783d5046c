/** Failure-compatible wrappers shared by every module of the model. */
module Wrappers {

  /** A value that may be absent (Python's `None`). */
  datatype Option<+T> = None | Some(value: T)

  /** Either a value or the exception a script lets escape. */
  datatype Result<+T, +E> = Ok(value: T) | Err(error: E)

  /** The Python exceptions that abort one of the scripts. */
  datatype Exception =
    | KeyError(column: string)      // a column the code indexes is missing
    | FileNotFoundError             // the table file or an input document is absent
    | ValueError(message: string)   // no figure found, or `float()` refused a numeral
    | IndexError                    // `[-1]` / `iloc[-1]` on an empty sequence
    | HttpError                     // `raise_for_status()` on a failed download
}
