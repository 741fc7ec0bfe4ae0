/** The JavaScript values that may be `null` or `undefined` in the supervisor
    (the tracked child, the last output line, the exit code, the signal) are
    modelled with this Some/None datatype. */
module Wrappers {

  datatype Option<+T> = None | Some(value: T) {

    /** The held value, or `default` when there is none. */
    function GetOr(default: T): (r: T)
      ensures Some? ==> r == value
      ensures None? ==> r == default
    {
      match this
      case Some(v) => v
      case None => default
    }
  }
}
