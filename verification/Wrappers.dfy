/** An optional value: a nullable pointer, or a field a stored document may lack. */
module Wrappers {
  datatype Option<+T> = None | Some(value: T)
}
