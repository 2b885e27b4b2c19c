/** The optional-value wrapper used for every decoder that can reject its input. */
module Options {

  datatype Option<+T> = None | Some(value: T)
}
