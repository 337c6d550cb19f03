/** A value that may be missing: a submission key whose JSON value is `null`. */
module Wrappers {
  datatype Option<+T> = None | Some(value: T)
}
