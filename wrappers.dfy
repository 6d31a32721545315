/** A value that may be absent: a record field missing from the JSON data,
    or a button without a `data-dept` attribute. */
module Wrappers {
  datatype Option<+T> = None | Some(value: T)
}
