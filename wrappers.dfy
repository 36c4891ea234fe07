/** A value that may be absent: a NULL `char *` in the C program. */
module Wrappers {

  datatype Option<+T> = None | Some(value: T)

}
