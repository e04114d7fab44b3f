/** Python's `None` next to a value, for the optional arguments of the library. */
module Wrappers {

  datatype Option<+T> = None | Some(value: T)
}
