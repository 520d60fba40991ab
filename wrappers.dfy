/** The optional value used for the library's optional arguments. */
module Wrappers {

  /** `None` stands for an argument the caller left out (JavaScript `undefined`). */
  datatype Option<+T> = None | Some(value: T)
}
