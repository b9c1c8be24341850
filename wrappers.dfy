/** The conventional optional value, used for the scanner's end of stream
    and for the one-character lookahead. */
module Wrappers {
  datatype Option<+T> = None | Some(value: T)
}
