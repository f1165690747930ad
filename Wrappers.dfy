/** The optional value used wherever the source either produces a value or
    raises (a missing key, an empty lookup). */
module Wrappers {

  datatype Option<+T> = None | Some(value: T)
}
