/** Optional values: the model's rendering of TypeScript's `T | undefined`
    and of the `field?: T` members of the annotation records. */
module Wrappers {

  datatype Option<+T> = None | Some(value: T) {

    /** `this ?? default`: the value when present, otherwise the default. */
    function GetOr(default: T): T {
      match this
      case Some(v) => v
      case None => default
    }

    /** `patch ?? this`: a present patch value replaces the current one. */
    function Or(fallback: Option<T>): Option<T> {
      if Some? then this else fallback
    }
  }
}
