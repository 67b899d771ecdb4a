/** An optional value. */
module Wrappers {

  datatype Option<T> = None | Some(value: T) {

    /** The value when present, `fallback` otherwise. */
    function ValueOr(fallback: T): T {
      if Some? then value else fallback
    }
  }
}
