/** The optional value used wherever the listener either has a result or has none. */
module Wrappers {

  /** `None` where the source gets Python's `None` or catches an exception,
      `Some(v)` where it gets a value. */
  datatype Option<+T> = None | Some(value: T)
}
