/** Python's `None`-or-value, as returned by lookups and `fetchone()`. */
module Wrappers {

  datatype Option<+T> = None | Some(value: T)
}
