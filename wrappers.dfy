/** Small wrappers shared by the other modules. */
module Wrappers {

  /** A value that may be missing: a nullable dataframe cell, or "no such row". */
  datatype Option<+T> = None | Some(value: T)

  /** The result of a page step that can stop the run with a warning instead of a value. */
  datatype Outcome<+T> = Ok(value: T) | Warning(message: string)
}
