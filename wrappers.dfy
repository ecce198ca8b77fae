/** The optional value used wherever the source has a value that may be
    `null` or `undefined`, or a parameter that may not be a function. */
module Wrappers {
  datatype Option<+T> = None | Some(value: T)
}
