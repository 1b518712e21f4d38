/** The Option datatype: `None` stands for the C code's NULL record pointer. */
module Wrappers {

  datatype Option<+T> = None | Some(value: T)
}
