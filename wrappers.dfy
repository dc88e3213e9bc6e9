/** A value that may be absent: models a JavaScript field that is `undefined`. */
module Wrappers {
  datatype Option<+T> = None | Some(value: T)
}
