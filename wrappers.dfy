/** The optional value that Python's `Optional[str]` and `fetchone()` returning `None` stand for. */
module Wrappers {

  datatype Option<+T> = None | Some(value: T)
}
