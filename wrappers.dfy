/** An optional value, where JavaScript would use `null`. */
module Wrappers {

  datatype Option<+T> = None | Some(value: T)
}
