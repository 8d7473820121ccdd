/** An optional value: a listbox selection that may be empty, a file that may
    be missing or unreadable, a computation that may fail. */
module Opt {
  datatype Option<T> = None | Some(value: T)
}
