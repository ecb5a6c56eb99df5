/** The optional value used where the source uses a nullable reference. */
module Optional {
  datatype Option<+T> = None | Some(value: T)
}
