/** The optional value used for "the file may be absent" and for calls that may not return. */
module Options {

  datatype Option<+T> = None | Some(value: T)
}
