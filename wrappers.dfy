/** The one stock datatype the model needs: a value that may be absent (a JavaScript `undefined`/`null`). */
module Wrappers {

  datatype Option<+T> = None | Some(value: T)
}
