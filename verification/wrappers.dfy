/** An optional value: `None` or `Some(v)`. */
module Wrappers {

  datatype Option<+T> = None | Some(value: T)
}
