/** The optional value used wherever the source has `undefined`, `null`
    or a lookup that may find nothing. */
module Wrappers {

  datatype Option<+T> = None | Some(value: T)
}
