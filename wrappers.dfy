/** Option type used for the optional fields of a channel configuration. */
module Wrappers {

  /** A value that may be absent (a JavaScript property that is not set). */
  datatype Option<+T> = None | Some(value: T)
}
