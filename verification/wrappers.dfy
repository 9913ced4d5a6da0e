/** The optional value used wherever the modelled code returns `None` or
    leaves an attribute unset. */
module Wrappers {

  datatype Option<+T> = None | Some(value: T)
}
