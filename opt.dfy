/** The optional-value datatype shared by every module of the model. */
module Opt {
  datatype Option<+T> = None | Some(value: T)
}
