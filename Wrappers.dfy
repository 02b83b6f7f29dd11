/** Small helper types shared by the modules of this project. */
module Wrappers {

  /** A value that may be absent: undefined / null / npos / -1 in the modelled sources. */
  datatype Option<T> = None | Some(value: T)
}
