/** The JavaScript `null`-or-value convention, as an Option. */
module Wrappers {
  datatype Option<+T> = None | Some(value: T)
}
