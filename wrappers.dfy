/** The optional value used wherever the bot stores `None` or a value. */
module Wrappers {
  datatype Option<+T> = None | Some(value: T)
}
