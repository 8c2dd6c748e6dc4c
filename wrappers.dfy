/** The optional value used where the source may hold `undefined` or `null`. */
module Wrappers {

  datatype Option<+T> = None | Some(value: T)
}
