/** The optional value used wherever the decoder holds a pointer that may be null or a
    `Maybe<...>` that may be empty. */
module Options {
  datatype Option<+T> = None | Some(value: T)
}
