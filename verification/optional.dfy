/** Python's `None`, or a present value. */
module Optional {

  datatype Option<T> = None | Some(value: T)

  /** The present value, or `fallback` where Python would see `None`. */
  function OrElse<T>(o: Option<T>, fallback: T): T {
    if o.Some? then o.value else fallback
  }
}
