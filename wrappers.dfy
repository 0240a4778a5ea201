/** The Some/None datatype, standing for the service's `false`-or-value results. */
module Wrappers {

  datatype Option<+T> = None | Some(value: T)
}
