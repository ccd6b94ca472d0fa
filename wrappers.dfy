/** The optional value the scorer uses for "a salary ceiling, or none found". */
module Wrappers {

  datatype Option<+T> = None | Some(value: T)
}
