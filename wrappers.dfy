/** The absent-value sentinel used by the safe path lookup. */
module Wrappers {

  /** `None` plays the part of JavaScript's `undefined` for a missing path segment. */
  datatype Option<+T> = None | Some(value: T)
}
