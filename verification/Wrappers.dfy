// The one failure-carrying type the modules share.
module Wrappers {
  datatype Option<+T> = None | Some(value: T)
}
