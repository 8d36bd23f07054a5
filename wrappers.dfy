/** The optional value used for the validator's per-field verdict and for the
    configuration values the hosting environment may or may not provide. */
module Wrappers {

  datatype Option<+T> = None | Some(value: T)

}
