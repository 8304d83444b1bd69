/** The optional value used for lookups that may find nothing: a missing
    cookie, an unset environment variable, a slug with no row. */
module Wrappers {

  datatype Option<+T> = None | Some(value: T)
}
