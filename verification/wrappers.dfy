/** The optional-value datatype used wherever PHP returns a value or `null`/`false`. */
module Wrappers {

  /** `None` stands for PHP's `null` (or `false` from a search function). */
  datatype Option<+T> = None | Some(value: T)
}
