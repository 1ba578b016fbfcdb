/** The optional value used for .NET references that may be null. */
module Wrappers {

  datatype Option<+T> = None | Some(value: T)
}
