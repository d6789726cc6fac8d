/** The conventional optional value, standing for JavaScript's `null` / `undefined`. */
module Wrappers {
  datatype Option<+T> = None | Some(value: T)
}
