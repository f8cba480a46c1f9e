/** The absent-or-present value that `Optional<Todo>` stands for in the source. */
module Wrappers {
  datatype Option<+T> = None | Some(value: T)
}
