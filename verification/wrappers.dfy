/** Values that may be absent. The backend returns null for a missing related row or
    for a lookup with no single match, and the message parsers reject text they cannot
    read; both become `None`. */
module Wrappers {

  datatype Option<+T> = None | Some(value: T) {

    // `:-` support: an absent value stops the enclosing computation, and a present one
    // is unwrapped.

    predicate IsFailure() { !Some? }

    function PropagateFailure<U>(): Option<U>
      requires !Some?
    {
      None
    }

    function Extract(): T
      requires Some?
    {
      value
    }

    /** `x ?? fallback`: the value when present, otherwise `fallback`. */
    function GetOr(fallback: T): (r: T)
      ensures Some? ==> r == value
      ensures None? ==> r == fallback
    {
      if Some? then value else fallback
    }
  }
}
