/** The optional-value datatype used wherever the source returns `None` or
    a regular-expression search finds nothing. */
module Wrappers {

  datatype Option<+T> = None | Some(value: T)
}
