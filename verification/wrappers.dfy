/** The optional-value wrapper used wherever the program can come back empty-handed. */
module Wrappers {

  datatype Option<+T> = None | Some(value: T)

}
