/** The optional value used for the C program's sentinels ("no value yet", "no move"). */
module Wrappers {

  datatype Option<+T> = None | Some(value: T)

}
