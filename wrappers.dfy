/** The optional value shared by the modules of this model: a JavaScript
    property read that may find nothing (`undefined`). */
module Wrappers {
  datatype Option<T> = None | Some(value: T)
}
