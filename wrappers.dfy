/** An optional value, used for a nullable value-typed slot. */
module Wrappers {
  datatype Option<+T> = None | Some(value: T)
}
