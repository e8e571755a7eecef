/** An optional value: Java's nullable reference, or a parse that may fail. */
module Wrappers {
  datatype Option<+T> = None | Some(value: T)
}
