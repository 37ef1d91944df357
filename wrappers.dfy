/** An optional value: used where something may be absent (a store lookup
    that finds nothing, a button that is not offered). */
module Wrappers {
  datatype Option<+T> = None | Some(value: T)
}
