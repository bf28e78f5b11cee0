/** A value that may be absent, standing for a JavaScript `null`. */
module Wrappers {

  datatype Option<+T> = None | Some(value: T)
}
