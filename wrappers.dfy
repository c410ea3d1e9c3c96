/** The conventional optional value, standing for a JavaScript value that may be
    `null` or `undefined` (the source's `isNil`). */
module Wrappers {
  datatype Option<+T> = None | Some(value: T)
}
