/** Option: the model's stand-in for JavaScript's `undefined` and for a thrown TypeError. */
module Wrappers {

  datatype Option<+T> = None | Some(value: T)

}
