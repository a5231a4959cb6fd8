/** The optional value the Go code expresses with a nil pointer. */
module Wrappers {

  datatype Option<+T> = None | Some(value: T)
}
