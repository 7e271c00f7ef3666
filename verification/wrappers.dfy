/** Python's `None`, for the values the classifier may leave absent. */
module Wrappers {
  datatype Option<+T> = None | Some(value: T)
}
