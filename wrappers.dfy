/** The Option type used for "a reading, or nothing" throughout the model. */
module Wrappers {

  datatype Option<+T> = None | Some(value: T)
}
