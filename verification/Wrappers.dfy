/** An optional value: a missing field or map entry, or a result that may be an error. */
module Wrappers {

  datatype Option<+T> = None | Some(value: T)
}
