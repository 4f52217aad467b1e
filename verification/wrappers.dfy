/** The optional value used for C#'s nullable references (`string?`, `Product?`). */
module Wrappers {

  datatype Option<+T> = None | Some(value: T)
}
