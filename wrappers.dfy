/** Java's nullable results and thrown exceptions, as a value. */
module Wrappers {

  /** `None` stands for Java's `null`, or for an exception the caller
      treats the same way. */
  datatype Option<+T> = None | Some(value: T)
}
