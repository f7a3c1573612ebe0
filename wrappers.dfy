/** Option, used for the values the source represents as `null` / `undefined`. */
module Wrappers {
  datatype Option<+T> = None | Some(value: T)
}
