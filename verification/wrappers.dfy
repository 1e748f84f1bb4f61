/** The optional value used wherever the source has a nullable column, an absent
    form field or a function that may return None. */
module Wrappers {

  datatype Option<+T> = None | Some(value: T)

}
