/** The optional value used for a spreadsheet cell that may be missing. */
module Wrappers {

  datatype Option<+T> = None | Some(value: T)
}
