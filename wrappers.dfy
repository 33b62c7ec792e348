/** The optional value used wherever the Go code returns a nil-able pointer or error. */
module Wrappers {

  datatype Option<+T> = None | Some(value: T)
}
