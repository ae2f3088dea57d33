/** Failure-compatible wrapper used where the source returns `null` or `undefined`. */
module Wrappers {

  /** `Some(v)` for a value, `None` where JavaScript yields `null`. */
  datatype Option<+T> = None | Some(value: T)
}
