/** The "value or nothing" type the source expresses with `null` and `undefined`. */
module Wrappers {
  datatype Option<T> = None | Some(value: T)
}
