/** The optional value used where the source returns null or an invalid Date. */
module Wrappers {

  datatype Option<+T> = None | Some(value: T)

}
