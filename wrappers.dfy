/** An optional value: `None` stands for an operation that throws or finds nothing. */
module Wrappers {

  datatype Option<+T> = None | Some(value: T)
}
