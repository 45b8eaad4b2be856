/** The optional-value wrapper shared by the date parser and the order lookups. */
module Wrappers {

  /** A value that may be absent. */
  datatype Option<+T> = None | Some(value: T)
}
