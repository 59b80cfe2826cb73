/** The optional value used throughout the model (a PHP `null`, a JavaScript `null`/`undefined`). */
module Wrappers {

  datatype Option<+T> = None | Some(value: T)
}
