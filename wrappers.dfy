/** The optional value used wherever the source yields "nothing" (a missing key). */
module Wrappers {
  datatype Option<+T> = None | Some(value: T)
}
