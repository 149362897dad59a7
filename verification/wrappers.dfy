/** A JavaScript value that may be `null` or `undefined` is modelled as an Option. */
module Wrappers {
  datatype Option<+T> = None | Some(value: T)
}
