/** The optional-value datatype used for the parser's result and the continuation token. */
module Wrappers {

  datatype Option<+T> = None | Some(value: T)
}
