/** The absent-or-present result used where the library returns `null`. */
module Wrappers {

  datatype Option<+T> = None | Some(value: T)
}
