/** The usual Some/None datatype, used for Python values that may be absent
    (a failed json.loads, a missing dictionary key, a skipped line). */
module Wrappers {

  datatype Option<+T> = None | Some(value: T) {

    /** The encapsulated value, or `default` when there is none
        (Python's `d.get(key, default)`). */
    function GetOr(default: T): T {
      match this
      case Some(v) => v
      case None => default
    }
  }
}
