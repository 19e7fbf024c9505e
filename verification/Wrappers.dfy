/** The result type shared by the parsers: a value, or the null pointer the source returns on failure. */
module Wrappers {
  datatype Option<+T> = None | Some(value: T)
}
