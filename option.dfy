/** The "value or nothing" result shared by the models: `None` stands for
    Python's `None` and for a computation that raises. */
module Opt {
  datatype Option<+T> = None | Some(value: T)
}
