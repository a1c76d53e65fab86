/** Small helper datatypes shared by the other modules. */
module Common {

  /** The conventional Some/None datatype. */
  datatype Option<+T> = None | Some(value: T)

}
