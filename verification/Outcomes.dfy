/** Results of operations that may find nothing, or refuse by raising. */
module Outcomes {
  datatype Option<T> = None | Some(value: T)

  datatype Outcome<T> = Raise | Return(value: T)
}
