/** Failure-compatible helper types shared by the other modules. */
module Wrappers {

  /** A value that may be absent: Python's `None`, a missing dictionary entry,
      or an exception that ends the computation. */
  datatype Option<+T> = None | Some(value: T)
}
