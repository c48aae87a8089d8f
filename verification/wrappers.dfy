/** The optional-value datatype the model uses for tokens that may be missing. */
module Wrappers {

  /** `undefined` in the source becomes `None`. */
  datatype Option<+T> = None | Some(value: T)
}
