/**
 * Small shared vocabulary: an optional value, used wherever the PHP code
 * tests `isset`, gets `false` back from a lookup, or receives `null`.
 */
module Basics {

  datatype Option<+T> = None | Some(value: T) {

    /** The contained value, or `default` when there is none. */
    function GetOr(default: T): T {
      match this
      case Some(v) => v
      case None => default
    }
  }
}
