/** The optional value used where the PHP code returns `null`. */
module Wrappers {

  datatype Option<+T> = None | Some(value: T)
}
