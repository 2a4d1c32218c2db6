/** The optional value used for Swift's `Optional` results (`firstIndex(of:)`, the last error shown). */
module Wrappers {

  datatype Option<+T> = None | Some(value: T)
}
