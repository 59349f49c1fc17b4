/** A value that may be missing: what the C code returns as a null pointer or as false. */
module Options {

  datatype Option<+T> = None | Some(value: T)
}
