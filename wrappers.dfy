/** The usual optional-value datatype: a task pointer that may be null, a
    document that may be missing. */
module Wrappers {

  datatype Option<+T> = None | Some(value: T)

}
