/** The optional-value datatype used for lookups and for Go's `error` results
    (`None` plays the part of a nil error). */
module Wrappers {

  datatype Option<+T> = None | Some(value: T)
}
