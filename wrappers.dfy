/** An optional value: the model's stand-in for Python's `None` where a value may be absent. */
module Wrappers {

  datatype Option<+T> = None | Some(value: T)
}
