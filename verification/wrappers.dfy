/** The optional value used for the node's frame slot and for parsed request targets. */
module Wrappers {

  /** `None` is Python's `None`; `Some(v)` holds a value. */
  datatype Option<+T> = None | Some(value: T)
}
