/** What a search returns. */
module Wrappers {
  datatype Option<+T> = None | Some(value: T)
}
