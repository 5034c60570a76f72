/** An optional value, used wherever the source returns `false`, `null` or `npos` for "nothing". */
module Wrappers {
  datatype Option<+T> = None | Some(value: T)
}
