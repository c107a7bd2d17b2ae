/** The optional value Python spells `Optional[str]`: `None` or a value. */
module Options {
  datatype Option<+T> = None | Some(value: T)
}
