/** The optional value used wherever the program reads something that may be absent
    (an attribute, a fetched document) or stops with an exception. */
module Wrappers {

  datatype Option<T> = None | Some(value: T)
}
