/** The optional value used for parse results and validation outcomes. */
module Wrappers {

  datatype Option<+T> = None | Some(value: T)
}
