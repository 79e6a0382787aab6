/** The optional value used for JavaScript's `string | null`. */
module Options {
  datatype Option<+T> = None | Some(value: T)
}
