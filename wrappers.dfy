/** A nullable column value: `None` stands for SQL NULL. */
module Wrappers {
  datatype Option<+T> = None | Some(value: T)
}
