/** The optional value used for "no selection", "no exclusion" and "no match". */
module Wrappers {
  datatype Option<+T> = None | Some(value: T)
}
