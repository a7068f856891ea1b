/** The optional value that stands for Python's `None` in search results. */
module Wrappers {
  datatype Option<+T> = None | Some(value: T)
}
