/** The optional value used where the program's JavaScript produces either a
    value or nothing (an Invalid Date, a table that yields no entry). */
module Wrappers {
  datatype Option<+T> = None | Some(value: T)
}
