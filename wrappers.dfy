/** The optional value used wherever the scripts test for `null`/`undefined`. */
module Wrappers {
  datatype Option<+T> = None | Some(value: T)
}
