/** The optional value shared by the editor and the server models. */
module Wrappers {
  datatype Option<+T> = None | Some(value: T)
}
