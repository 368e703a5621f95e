/** A nullable reference, as C#'s `string?` and `T?` use it. */
module Wrappers {

  datatype Option<+T> = None | Some(value: T)
}
