/** The optional value used for `stats.lastActiveDate`, which starts as
    `null`. */
module Wrappers {
  datatype Option<+T> = None | Some(value: T)
}
