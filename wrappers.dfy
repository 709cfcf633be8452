/** The optional value used wherever the engine returns `undefined`, `null`, `NaN` or `[]`. */
module Wrappers {

  datatype Option<+T> = None | Some(value: T)
}
