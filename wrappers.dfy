/** Small helper datatypes shared by the model. */
module Wrappers {

  /** A value that may be absent: the model of a nullable C# reference. */
  datatype Option<+T> = None | Some(value: T)
}
