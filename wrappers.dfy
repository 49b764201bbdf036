/** Option, the model's stand-in for a nullable value or a missing key. */
module Wrappers {

  datatype Option<+T> = None | Some(value: T)
}
