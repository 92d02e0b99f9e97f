/** An optional value, shared by the modules: None stands for the C code's
    NULL pointer or its "-1, nothing read" status. */
module Wrappers {
  datatype Option<T> = None | Some(value: T)
}
