/** The optional-value type shared by the other modules. */
module Wrappers {

  /** `None` stands for JavaScript's `undefined`/`null` where the two behave alike. */
  datatype Option<+T> = None | Some(value: T)
}
