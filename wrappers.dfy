/** The optional value used for C#'s nullable references and for the `null` that the
    repositories return when a row is missing or the store throws. */
module Wrappers {

  datatype Option<+T> = None | Some(value: T)
}
