/** An absent-or-present value: stands for the source's nullable references and lists. */
module Wrappers {

  datatype Option<+T> = None | Some(value: T)
}
