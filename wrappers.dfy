/** The optional value used wherever Python returns `None` for "nothing". */
module Wrappers {

  datatype Option<+T> = None | Some(value: T)

}
