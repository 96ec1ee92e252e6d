/** An optional value: a form field or query argument that may be absent, a lookup that may miss. */
module Wrappers {
  datatype Option<T> = None | Some(value: T)
}
