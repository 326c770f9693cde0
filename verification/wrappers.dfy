/** The conventional Some/None datatype, used wherever the JavaScript code holds
    either an object reference or `undefined`/`null`. */
module Wrappers {

  datatype Option<+T> = None | Some(value: T)
}
