/** The conventional optional value, used for parse failures and regex misses. */
module Wrappers {
  datatype Option<+T> = None | Some(value: T)
}
