/** The Some/None datatype used wherever the program holds a value that may be
    `None` (an undetermined date, a missing attribute, a table that was not found). */
module Wrappers {

  datatype Option<+T> = None | Some(value: T)
}
