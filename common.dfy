/** Small shared datatypes. */
module Common {

  /** A value that may be absent: Python's `None` or a raised-and-caught error. */
  datatype Option<+T> = None | Some(value: T) {

    /** The wrapped value, or `default` when there is none (Python's `d.get(k, default)`). */
    function GetOr(default: T): T {
      match this
      case Some(v) => v
      case None => default
    }
  }
}
