/** The optional value used wherever the application looks up something that may be absent. */
module Wrappers {

  datatype Option<+T> = None | Some(value: T)
}
