/** The optional value used for missing table cells and for parse results. */
module Wrappers {

  /** A value that may be absent: a missing (NaN) cell, or a parser that raised. */
  datatype Option<+T> = None | Some(value: T)
}
