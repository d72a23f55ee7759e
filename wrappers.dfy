/** An optional value, standing for C#'s nullable `T?`. */
module Wrappers {

  datatype Option<+T> = None | Some(value: T)
}
