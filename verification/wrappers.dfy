/** An optional value, used for the results that JavaScript signals with an exception or a miss. */
module Wrappers {

  datatype Option<+T> = None | Some(value: T)

}
