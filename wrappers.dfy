/** Python's `None`-or-value, as used for optional attributes and fields. */
module Wrappers {

  datatype Option<+T> = None | Some(value: T)

}
