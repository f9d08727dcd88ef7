/** The optional values of the source (`file?`, `link?`, `description?`, `productToEdit?`). */
module Wrappers {

  datatype Option<+T> = None | Some(value: T)
}
