/** The optional-value datatype used for storage keys that may be absent. */
module Wrappers {

  /** `None` stands for an absent key (or JavaScript `null`). */
  datatype Option<+T> = None | Some(value: T)
}
