/** The optional value used wherever the bot's inputs may be absent. */
module Wrappers {

  datatype Option<+T> = None | Some(value: T)
}
