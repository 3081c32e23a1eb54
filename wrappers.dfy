/** The optional value used wherever the service answers with a value or with None. */
module Wrappers {
  datatype Option<+T> = None | Some(value: T)
}
