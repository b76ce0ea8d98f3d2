/** An optional value: what the page writes as `null` or `undefined`. */
module Options {
  datatype Option<T> = None | Some(value: T)
}
