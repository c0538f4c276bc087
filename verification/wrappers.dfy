/** The Some/None datatype used for Python's `None` returns and for the
    failure paths that the source turns into fallbacks. */
module Wrappers {

  datatype Option<+T> = None | Some(value: T)
}
