/** Option type used for searches and parses that can fail. */
module Wrappers {
  datatype Option<+T> = None | Some(value: T)
}
