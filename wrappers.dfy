/** The optional value used for lxml's `text` and `tail` properties, which are
    either a string or None. */
module Wrappers {

  datatype Option<+T> = None | Some(value: T)
}
