/** An optional value, where the source returns or throws. */
module Wrappers {

  datatype Option<+T> = None | Some(value: T)
}
