/** The optional-value datatype used for properties a snapshot may lack. */
module Wrappers {

  datatype Option<+T> = None | Some(value: T)
}
