/** The optional values the colour engine returns where the source returns a Swift optional. */
module Wrappers {

  datatype Option<+T> = None | Some(value: T)
}
