/** An optional value: a JavaScript field that may be absent (`undefined`). */
module Options {

  datatype Option<+T> = None | Some(value: T)
}
