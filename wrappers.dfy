/** The optional value used for the script's "found or not" and "read or
    failed" outcomes. */
module Wrappers {
  datatype Option<T> = None | Some(value: T)
}
