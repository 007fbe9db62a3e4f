/** The option type used wherever the C++ code answers "-1", "nullptr" or "false". */
module Wrappers {
  datatype Option<+T> = None | Some(value: T)
}
