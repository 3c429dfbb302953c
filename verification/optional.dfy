/** Presence or absence of a value: Python's `None` or a value. */
module Optional {

  datatype Option<+T> = None | Some(value: T)
}
