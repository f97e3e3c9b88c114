/** The optional value used across the model (a JavaScript `null`-able value). */
module Options {

  datatype Option<+T> = None | Some(value: T)
}
