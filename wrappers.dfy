/** The optional value used for results that may be absent: a chart that
    renders nothing, or a colour the ordinal scale does not know. */
module Wrappers {

  datatype Option<+T> = None | Some(value: T)
}
