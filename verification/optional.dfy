/** A value that may be missing: the model's stand-in for a Java `null` or a thrown exception. */
module Optional {
  datatype Option<T> = None | Some(value: T)
}
