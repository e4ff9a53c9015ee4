/** Failure-carrying results shared by the interpreter and the generators. */
module Wrappers {

  /** `None` stands for a machine fault or a generator exception. */
  datatype Option<+T> = None | Some(value: T)
}
