/** The optional value used throughout the model: a JavaScript value that may be
    `null`/`undefined`, a search that may find nothing. */
module Wrappers {

  datatype Option<+T> = None | Some(value: T)
}
