/** The result of a step that may have none. */
module Wrappers {
  datatype Option<T> = None | Some(value: T)
}
