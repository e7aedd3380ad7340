/** The Some/None datatype that stands in for Go's nil pointers. */
module Optional {

  datatype Option<+T> = None | Some(value: T)

}
