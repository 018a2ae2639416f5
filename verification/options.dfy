/** The optional-value datatype shared by the other modules. */
module Options {

  /** Either nothing, or a value. */
  datatype Option<+T> = None | Some(value: T)
}
