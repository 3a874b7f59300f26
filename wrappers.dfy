/** The optional value that the widget's JavaScript represents with `null`. */
module Wrappers {

  /** `None` stands for JavaScript's `null` (an absent storage key, an unset cache). */
  datatype Option<+T> = None | Some(value: T)
}
