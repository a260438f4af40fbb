/** A value that may be absent: the parser's "no card from this line" and
    the scanner's "no closing quote". */
module Wrappers {
  datatype Option<+T> = None | Some(value: T)
}
