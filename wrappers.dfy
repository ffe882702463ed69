/** Option, the Go program's nil / not-found / failed-to-parse results. */
module Wrappers {

  datatype Option<+T> = None | Some(value: T)
}
