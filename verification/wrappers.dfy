/** The optional result used wherever the source returns std::optional. */
module Wrappers {

  datatype Option<+T> = None | Some(value: T)

}
