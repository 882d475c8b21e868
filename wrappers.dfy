/** The optional value that Python writes as `str | None`. */
module Wrappers {
  datatype Option<+T> = None | Some(value: T)
}
