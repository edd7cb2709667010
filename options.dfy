/** An optional value: `None` where the source has nothing (no upload, no
    match), `Some(value)` otherwise. */
module Options {
  datatype Option<T> = None | Some(value: T)
}
