/** An optional value, used where the page script finds an element or it does not. */
module Options {

  datatype Option<+T> = None | Some(value: T)
}
