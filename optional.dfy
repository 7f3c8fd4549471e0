/** The value-or-nothing type used where the C code has a nullable pointer. */
module Optional {

  datatype Option<+T> = None | Some(value: T)
}
