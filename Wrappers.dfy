/** Java's null results, as an option */
module Wrappers {
  datatype Option<+T> = None | Some(value: T)
}
