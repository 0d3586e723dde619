/** The optional values that the source writes as `nonstd::optional`. */
module Wrappers {
  datatype Option<+T> = None | Some(value: T)
}
