/** The one failure-compatible wrapper this model needs: a value that may be absent
    (a regular-expression search that finds nothing, a property lookup that misses). */
module Wrappers {

  datatype Option<+T> = None | Some(value: T)
}
