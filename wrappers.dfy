/** Option: a value that may be missing (an absent JSON field, or JavaScript's NaN / a runtime fault). */
module Wrappers {
  datatype Option<+T> = None | Some(value: T)
}
