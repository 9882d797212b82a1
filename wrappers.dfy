/** Small failure-carrying datatypes shared by the other modules. */
module Wrappers {

  /** A value that may be missing: a JSON key that is absent, a search that finds nothing. */
  datatype Option<+T> = None | Some(value: T)
}
