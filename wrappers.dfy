/** Failure-compatible wrapper used by the model for "may fail" and "undefined". */
module Wrappers {

  /** `None` stands for a thrown error (host calls) or for `undefined` (getUrlParam). */
  datatype Option<+T> = None | Some(value: T)
}
