/** Optional values, used for the fields the source reads with `dict.get` and for
    results that may be missing (Python's `None`); and `min`. */
module Wrappers {

  datatype Option<+T> = None | Some(value: T) {

    /** The wrapped value, or `default` when there is none (Python's `d.get(k, default)`). */
    function GetOr(default: T): T
    {
      match this
      case Some(v) => v
      case None => default
    }
  }

  /** Python's `min` on two counts, as in `xs[:n]` of a list of length m. */
  function Min(a: nat, b: nat): nat
  {
    if a <= b then a else b
  }
}
