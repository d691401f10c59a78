/** The optional value the tool returns where Python returns `None`. */
module Wrappers {

  datatype Option<+T> = None | Some(value: T)
}
