/** A value that may be missing: an HTML attribute that is not set, an image
    outside any gallery, a view not yet drawn. */
module Options {

  datatype Option<T> = None | Some(value: T)

  /** What JavaScript's `x || fallback` gives for a present or missing `x`. */
  function ValueOr<T>(o: Option<T>, fallback: T): T
  {
    if o.Some? then o.value else fallback
  }
}
