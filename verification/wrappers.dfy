/** The optional value used wherever the source answers with null or "absent". */
module Wrappers {
  datatype Option<+T> = None | Some(value: T)
}
