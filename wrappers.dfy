/** The optional value used wherever the program returns `None` to signal a cancellation. */
module Wrappers {
  datatype Option<+T> = None | Some(value: T)
}
