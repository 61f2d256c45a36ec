/** The optional value used wherever a screen holds `null` or a lookup may miss. */
module Wrappers {

  datatype Option<+T> = None | Some(value: T)
}
