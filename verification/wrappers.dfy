/** The optional value used wherever a TypeScript field may be `undefined`
    (or `null`, for the recipe API's missing slots). */
module Wrappers {

  datatype Option<+T> = None | Some(value: T) {

    /** The wrapped value, or `default` when absent (TypeScript's `x || default`
        when `x` can only be falsy by being absent). */
    function GetOr(default: T): T {
      match this
      case Some(v) => v
      case None => default
    }
  }
}
