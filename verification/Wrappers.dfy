/** The one failure-free container the other modules share. */
module Wrappers {

  datatype Option<+T> = None | Some(value: T)
}
