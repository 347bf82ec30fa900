/** The optional value used wherever the source yields `undefined`. */
module Wrappers {

  datatype Option<T> = None | Some(value: T) {

    /** `x ?? fallback` */
    function GetOr(fallback: T): T {
      if Some? then value else fallback
    }
  }

  /** JavaScript truthiness of an optional string: `undefined` and the empty string are false. */
  predicate Truthy(s: Option<string>) {
    s.Some? && s.value != ""
  }
}
