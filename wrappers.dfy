/** The Some/None datatype for values that Python represents with `None`. */
module Wrappers {

  datatype Option<+T> = None | Some(value: T)
}
