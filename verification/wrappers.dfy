/** The optional value used wherever a reading can fail. */
module Wrappers {

  datatype Option<T> = None | Some(value: T)
}
