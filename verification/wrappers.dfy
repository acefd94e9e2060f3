/** The optional value the classifier returns: `None` when no range matches. */
module Wrappers {

  datatype Option<+T> = None | Some(value: T)
}
