/** The optional value used by the recognisers and the answer table. */
module Wrappers {

  datatype Option<+T> = None | Some(value: T)
}
