/** The optional value used wherever the repository has a nullable field or a lookup that may find nothing. */
module Wrappers {

  datatype Option<+T> = None | Some(value: T)
}
