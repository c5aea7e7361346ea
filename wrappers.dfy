/** The optional value Python spells as "a string, or False". */
module Wrappers {
  datatype Option<+T> = None | Some(value: T)
}
