/** Small failure-carrying datatypes used throughout the model in place of
    Go's `(value, error)` pairs and nil pointers. */
module Wrappers {

  /** A value that may be absent (Go's nil pointer, or an unset setting). */
  datatype Option<+T> = None | Some(value: T) {
    function GetOr(default: T): T {
      match this
      case Some(v) => v
      case None => default
    }
  }

  /** A value or an error message (Go's `(T, error)` return). */
  datatype Result<+T> = Ok(value: T) | Err(error: string) {
    predicate IsFailure() {
      Err?
    }
  }

  /** True when `order` lists every key of `keys` exactly once. This stands
      for the arbitrary order in which Go ranges over a map. */
  predicate Enumerates<K>(order: seq<K>, keys: set<K>) {
    && (forall i, j :: 0 <= i < j < |order| ==> order[i] != order[j])
    && (forall i :: 0 <= i < |order| ==> order[i] in keys)
    && (forall k :: k in keys ==> k in order)
  }
}
