/** The optional value used for unset references and for constructors that fail. */
module Wrappers {

  datatype Option<+T> = None | Some(value: T)
}
