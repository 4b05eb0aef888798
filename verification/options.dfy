/** The "maybe a value" wrapper used for the source's `undefined`/`null` slots. */
module Options {

  datatype Option<+T> = None | Some(value: T)
}
