/** The one datatype every model here shares. */
module Prelude {
  /** Python's `None`-or-a-value results. */
  datatype Option<+T> = None | Some(value: T)
}
