/** Option, used wherever a JavaScript value may be `undefined` or a
    computation may have nothing to report. */
module Wrappers {

  datatype Option<+T> = None | Some(value: T)
}
