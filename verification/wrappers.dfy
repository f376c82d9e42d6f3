/** The optional value used for request fields that may be absent from the
    parsed JSON body (`undefined` or `null` in the handler's terms). */
module Wrappers {

  datatype Option<+T> = None | Some(value: T)
}
