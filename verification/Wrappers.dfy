/** The optional value used wherever the source uses a nil pointer or an absent map entry. */
module Wrappers {
  datatype Option<+T> = None | Some(value: T)
}
