/** The usual optional value, used by the reader for "no parse". */
module Wrappers {

  datatype Option<+T> = None | Some(value: T)
}
