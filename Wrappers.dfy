/** The optional value used for nullable refs, missing fields and handlers that may not call setNotes. */
module Wrappers {
  datatype Option<+T> = None | Some(value: T)
}
