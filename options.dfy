/** An optional value: `undefined` or a value, as the handlers' lookups return. */
module Options {

  datatype Option<+T> = None | Some(value: T)
}
