/** The optional value used where the application returns `null` or skips an element. */
module Options {

  datatype Option<+T> = None | Some(value: T)
}
