/** The absent-or-present value used for JavaScript arguments that may be
    `undefined` or `null`. */
module Wrappers {
  datatype Option<+T> = None | Some(value: T)
}
