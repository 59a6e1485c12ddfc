/** An optional value: `None` stands for "nothing written" (a reducer call
    that emits no record) or Java's `null`. */
module Wrappers {
  datatype Option<+T> = None | Some(value: T)
}
