/** The optional value used for Python's `None` defaults and for a
    language detector that may raise instead of answering. */
module Wrappers {

  datatype Option<T> = None | Some(value: T)
}
