/** An optional value: stands for a JavaScript `null` result or an element that is not found. */
module Wrappers {

  datatype Option<+T> = None | Some(value: T)

}
