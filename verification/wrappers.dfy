/** Optional values: a nil pointer, a nil interface, a nil slice or map, an invalid
    reflect.Value and an absent cache entry are all modelled with `Option`. */
module Wrappers {

  datatype Option<+T> = None | Some(value: T) {

    /** Returns the value encapsulated in Some or a default value if None */
    function GetOr(default: T): T {
      match this
      case Some(v) => v
      case None => default
    }
  }
}
