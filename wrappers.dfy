/** The optional value the widget uses where the script stores `null`. */
module Wrappers {

  datatype Option<+T> = None | Some(value: T)
}
