/** The failure value the library uses in place of a null array. */
module Wrappers {

  /** None stands for the null reference a catch block returns, or for an
      exception that escapes the operation. */
  datatype Option<+T> = None | Some(value: T)
}
