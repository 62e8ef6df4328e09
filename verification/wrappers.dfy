/** Value shapes shared by every part of the model: optional values, and the
    three ways a key of a JSON object can look to Python's `dict.get`. */
module Wrappers {

  /** A value that may be `None`. */
  datatype Option<+T> = None | Some(value: T) {

    /** The value, or `default` when there is none. */
    function GetOr(default: T): T {
      match this
      case Some(v) => v
      case None => default
    }
  }

  /** One key of a parsed JSON object: missing, present with `null`, or
      present with a value. */
  datatype Field<+T> = Absent | Null | Present(value: T) {

    /** `d.get(key)`: a missing key and an explicit null both read as `None`. */
    function Get(): Option<T> {
      if Present? then Some(value) else None
    }

    /** `d.get(key, default)`: the default replaces a MISSING key only; an
        explicit null still reads as `None`. */
    function GetOr(default: T): Option<T> {
      match this
      case Absent => Some(default)
      case Null => None
      case Present(v) => Some(v)
    }
  }
}
