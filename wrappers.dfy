/** A nullable cell or a missing result: pandas' NaN / NaT and Python's None. */
module Wrappers {
  datatype Option<+T> = None | Some(value: T) {
    /** The value, or `default` when missing (what `fillna(default)` does to one cell). */
    function GetOr(default: T): T {
      match this
      case Some(v) => v
      case None => default
    }
  }
}
