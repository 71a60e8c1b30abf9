/** The optional value the source expresses with Python's `None`. */
module Optional {

  datatype Option<+T> = None | Some(value: T)

}
