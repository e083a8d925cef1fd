/** The optional result used for every fallible operation whose only error
    information in the source is a message. */
module Wrappers {

  datatype Option<+T> = None | Some(value: T)
}
