/** An optional value, for the places where the C# code uses `null`. */
module Wrappers {
  datatype Option<+T> = None | Some(value: T)
}
