/** The optional value used for the holes of a sparse JavaScript array. */
module Wrappers {

  /** `None` is an array slot that was never assigned (a hole); `Some(v)` holds `v`. */
  datatype Option<+T> = None | Some(value: T)
}
