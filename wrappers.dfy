/** The optional value used for JavaScript's `null`/`undefined` results
    and for lookups that may find nothing. */
module Wrappers {

  datatype Option<+T> = None | Some(value: T)
}
