/** Results of operations that may panic or fail. */
module Outcomes {
  datatype Outcome<+T> = Panic | Done(value: T)

  datatype Option<+T> = None | Some(value: T)
}
