/** An optional value: a fragment of the corpus may be absent (`nil`). */
module Wrappers {
  datatype Option<+T> = None | Some(value: T)
}
