/** An optional value: used for the nullable input string and for table lookups. */
module Wrappers {

  datatype Option<T> = None | Some(value: T) {

    /** The held value, or `fallback` when there is none (JavaScript's `??`). */
    function OrElse(fallback: T): T {
      if Some? then value else fallback
    }
  }
}
