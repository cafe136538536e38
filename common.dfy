/** Optional values, results and the exceptions the cleaning stage can raise. */
module Common {

  /** A value that may be absent; `None` plays the role of Python's `None`
      and, for a table cell, of a missing value (NaN). */
  datatype Option<+T> = None | Some(value: T)

  /** The outcome of a step that may raise. */
  datatype Result<+T, +E> = Success(value: T) | Failure(error: E)

  /** The exceptions that reach the caller of the cleaning stage. */
  datatype Error =
    | OSError(message: string)    // a file could not be opened or read (re-raised as is)
    | ParseError(message: string) // its contents could not be parsed as a table
    | TypeError                   // `os.path.exists(None)`
    | KeyError(column: string)    // a column the table does not have
    | ZeroDivisionError           // `len(data_fp) // 0`
}
