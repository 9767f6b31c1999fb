/** The optional value used for Swift's `Optional` references. */
module Wrappers {

  datatype Option<+T> = None | Some(value: T)
}
