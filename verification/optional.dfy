/** The Some/None datatype that stands in for Java's nullable references. */
module Optional {

  datatype Option<+T> = None | Some(value: T)
}
