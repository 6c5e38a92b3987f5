/** The optional value used for the backend's "maybe nothing" responses. */
module Wrappers {

  datatype Option<+T> = None | Some(value: T)
}
