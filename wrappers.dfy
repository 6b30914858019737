/** The failure-compatible wrapper used wherever the source raises or skips. */
module Wrappers {

  /** `None` stands for a numpy error, a shape mismatch or a missing value. */
  datatype Option<+T> = None | Some(value: T)
}
