/** Python's "a value or None", used for action codes and for the optional room bounds. */
module Wrappers {

  datatype Option<+T> = None | Some(value: T)
}
