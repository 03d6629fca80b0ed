/** Ruby's `nil` next to a value: `None` stands for `nil`. */
module Wrappers {

  datatype Option<+T> = None | Some(value: T)
}
