/** The nil-or-value result used where the Go code returns a nullable pointer. */
module Wrappers {
  datatype Option<+T> = None | Some(value: T)
}
