/** Option and Result wrappers used throughout the model. */
module Wrappers {
  datatype Option<+T> = None | Some(value: T)

  /** The outcome of a visitor: a value, or a fatal Python exception
      (KeyError on an unbound variable, a failed internal assert, a missing
      visitor method) that aborts the whole run. */
  datatype Result<+T> = Ok(value: T) | Fatal
}
