/** The Some/None datatype that stands in for a C# null reference. */
module Wrappers {

  datatype Option<+T> = None | Some(value: T)
}
