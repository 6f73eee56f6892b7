/** The optional value used wherever the source returns `None` or may lack a key. */
module Wrappers {

  datatype Option<+T> = None | Some(value: T)
}
