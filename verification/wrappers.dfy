/** The optional value used wherever ai.py returns None, raises and recovers, or a file may be missing. */
module Wrappers {
  datatype Option<+T> = None | Some(value: T)
}
