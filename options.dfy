/** An optional value: Java's null or a reference to something. */
module Options {
  datatype Option<T> = None | Some(value: T)
}
