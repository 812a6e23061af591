/** A value that may be absent: a JavaScript `null`/`undefined` slot. */
module Wrappers {
  datatype Option<+T> = None | Some(value: T)
}
