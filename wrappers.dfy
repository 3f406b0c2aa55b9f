/** The optional value used wherever the page's code uses `null` or `undefined`. */
module Wrappers {
  datatype Option<+T> = None | Some(value: T)
}
