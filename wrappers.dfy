/** The Some/None datatype used for absent values: the saved snapshot that
    may not exist yet, the padding cells of the month grid, a day key that
    does not parse. */
module Wrappers {

  datatype Option<+T> = None | Some(value: T)
}
