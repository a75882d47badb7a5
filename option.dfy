/** The optional value used for Python's `None` results and for parses that can fail. */
module Opt {

  datatype Option<+T> = None | Some(value: T)
}
