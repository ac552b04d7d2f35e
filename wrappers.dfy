/** The optional value used wherever the source has `null`, a failed decode or a missing match. */
module Wrappers {

  datatype Option<+T> = None | Some(value: T)
}
