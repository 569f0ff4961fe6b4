/** The optional value returned by the readers of this model when their input is malformed. */
module Options {

  datatype Option<+T> = None | Some(value: T)

}
