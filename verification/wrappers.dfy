/** The optional value used by both scripts' models: an environment variable
    that may be unset, a selection that may find nothing. */
module Wrappers {

  datatype Option<+T> = None | Some(value: T)
}
