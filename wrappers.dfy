/** The optional value the processor returns where Python returns `None`. */
module Wrappers {
  datatype Option<+T> = None | Some(value: T)
}
