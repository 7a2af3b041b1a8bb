/** The optional value a pick returns: `None` is a `Result` with no target pod. */
module Wrappers {
  datatype Option<+T> = None | Some(value: T)
}
