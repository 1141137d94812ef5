/** The optional value shared by the modules: a scrambler loop that may still be running,
    and a session that may end before its summary. */
module Wrappers {
  datatype Option<T> = None | Some(value: T)
}
