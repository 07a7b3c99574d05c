/** Option, for results that may be absent (a token that names no command,
    a digit string that does not parse). */
module Wrappers {
  datatype Option<+T> = None | Some(value: T)
}
