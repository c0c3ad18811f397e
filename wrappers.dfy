/** The optional-value datatype used throughout the model: JavaScript's
    `undefined`/`null` (and the NaN of a failed parse) become None. */
module Wrappers {

  datatype Option<+T> = None | Some(value: T)
}
