/** An optional value; `None` stands for an absent cursor. */
module Wrappers {

  datatype Option<+T> = None | Some(value: T)
}
