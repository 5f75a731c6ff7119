/** The optional-value datatype shared by the other modules. */
module Wrappers {

  /** `None` stands for a JavaScript `undefined` (an absent field or no return value). */
  datatype Option<+T> = None | Some(value: T)
}
