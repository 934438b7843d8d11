/** The optional value that stands for Python's `None` in results. */
module Wrappers {

  datatype Option<+T> = None | Some(value: T)
}
