/** The optional value the classifier uses where the source returns `None`. */
module Wrappers {

  datatype Option<+T> = None | Some(value: T)
}
