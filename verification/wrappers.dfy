/** The optional-value type used for request fields that may be absent. */
module Wrappers {

  /** `None` stands for a value the caller did not supply. */
  datatype Option<+T> = None | Some(value: T)
}
