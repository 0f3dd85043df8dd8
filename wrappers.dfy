/** The optional-value type used for "first occurrence" searches and for the splice. */
module Wrappers {
  datatype Option<+T> = None | Some(value: T)
}
