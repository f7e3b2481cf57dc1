// Datatypes shared by every component.
module Prelude {
  /** A value that may be absent: the C code returns NULL or an error code. */
  datatype Option<+T> = None | Some(value: T)
}
