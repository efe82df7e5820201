/** A value that may be absent: used where the game answers "no word". */
module Wrappers {
  datatype Option<+T> = None | Some(value: T)
}
