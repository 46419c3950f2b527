/** The optional value used wherever the screen's logic can yield "no value" (NaN, a failed parse). */
module Wrappers {
  datatype Option<+T> = None | Some(value: T)
}
