/** Optional values: the model's stand-in for Python's `None`. */
module Wrappers {

  datatype Option<+T> = None | Some(value: T) {

    /** Python's `x.group(1) if x else fallback`: what a match yields, or the
        placeholder the reader shows when nothing matched. */
    function OrElse(fallback: T): T {
      if Some? then value else fallback
    }
  }
}
