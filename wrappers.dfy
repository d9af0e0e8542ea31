/** Option, for the source's nullable references (`LinkedBuffer | null`). */
module Wrappers {
  datatype Option<+T> = None | Some(value: T)
}
