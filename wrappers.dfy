/** The optional value the script writes as an object or `null`. */
module Wrappers {
  datatype Option<+T> = None | Some(value: T)
}
