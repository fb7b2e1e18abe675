/** Optional values shared by the other modules. */
module Wrappers {

  /** An optional value: `None` when nobody is signed in or a label is not recognised. */
  datatype Option<+T> = None | Some(value: T)
}
