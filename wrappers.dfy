/** Option type used for values the source reports as `None` or leaves absent. */
module Wrappers {

  datatype Option<+T> = None | Some(value: T)
}
