// The optional value shared by the scanner, the stylesheet reader and the handler.

module Wrappers {
  datatype Option<T> = None | Some(value: T)
}
