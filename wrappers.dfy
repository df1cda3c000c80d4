/** Value-level stand-ins for Python's `None` and for `sys.exit` ending a run. */
module Wrappers {

  /** Python's "a value or None". */
  datatype Option<+T> = None | Some(value: T)

  /** The outcome of a script step that may call `sys.exit` before it produces a value. */
  datatype Outcome<+T, +E> = Done(value: T) | Exit(reason: E)
}
