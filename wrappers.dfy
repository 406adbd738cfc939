/** The optional value the chat client returns where Python returns `None`. */
module Wrappers {

  datatype Option<+T> = None | Some(value: T)

}
