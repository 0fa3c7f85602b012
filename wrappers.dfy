/** The optional value used wherever the source returns `null` for "nothing found". */
module Wrappers {

  datatype Option<+T> = None | Some(value: T)
}
