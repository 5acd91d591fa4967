/** The optional value that the service's Python code expresses with `None`. */
module Wrappers {

  datatype Option<+T> = None | Some(value: T)
}
