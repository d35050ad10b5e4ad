/** The optional-value datatype the model uses for "rendering produced no markup". */
module Wrappers {

  datatype Option<+T> = None | Some(value: T)
}
