/** The source returns null for "nothing found"; the model returns None. */
module Options {
  datatype Option<T> = None | Some(value: T)
}
