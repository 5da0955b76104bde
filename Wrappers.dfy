/** Option, the usual stand-in for a .NET `out` value that may be missing. */
module Wrappers {

  datatype Option<+T> = None | Some(value: T)
}
