/** The optional result of a regex match attempt: Python's `re.Match` or `None`. */
module Wrappers {
  datatype Option<+T> = None | Some(value: T)
}
