/** Small failure-carrying datatype shared by the modules of this model. */
module Wrappers {

  /** A value that may be absent; `None` stands for a code path that produces nothing. */
  datatype Option<+T> = None | Some(value: T)
}
