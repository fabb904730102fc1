/** The optional value used for results that may be missing, such as a body that does not
    parse as JSON. */
module Wrappers {

  datatype Option<+T> = None | Some(value: T)
}
