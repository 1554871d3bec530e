/** The optional value used for regular-expression matches that may fail
    and for model calls that may throw. */
module Wrappers {

  datatype Option<+T> = None | Some(value: T)
}
