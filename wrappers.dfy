/** An optional value, standing for a result the C code signals with NULL or a false flag. */
module Wrappers {

  datatype Option<+T> = None | Some(value: T)
}
