/** The optional value used wherever the source returns `null`, `undefined` or nothing. */
module Wrappers {
  datatype Option<+T> = None | Some(value: T)
}
