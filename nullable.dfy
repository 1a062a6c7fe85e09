/** A value the DOM may give as `null`, such as `getAttribute` on an absent attribute. */
module Nullable {

  datatype Option<+T> = None | Some(value: T)
}
