/** The optional value used where the program has `undefined` or a failed lookup. */
module Wrappers {

  datatype Option<+T> = None | Some(value: T)
}
