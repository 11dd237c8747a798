/** The optional value used for Python's `None`-or-value fields and for a frame
    read that may fail. */
module Wrappers {
  datatype Option<+T> = None | Some(value: T)
}
